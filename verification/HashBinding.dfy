/** A root hash stands for one tree: two different trees with the same hash contain a collision of the
    digest function among the byte strings that were hashed. */
module HashBinding {
  import opened Bytes
  import opened Encoding
  import opened Avl
  import opened Hashing

  // ------------------------------------------------------------------ preimages parse one way

  lemma UvarintOpens(n: nat, x: Bytes)
    ensures var b := Uvarint(n) + x;
      && b[0] == (if n < 128 then n else n % 128 + 128)
      && b[1..] == if n < 128 then x else Uvarint(n / 128) + x
  {
    hide Uvarint;
    UvarintShape(n);
    if n < 128 {
      HeadAndTail(n, [], x);
    } else {
      HeadAndTail(n % 128 + 128, Uvarint(n / 128), x);
    }
  }

  lemma UvarintShape(n: nat)
    ensures Uvarint(n) == if n < 128 then [n] else [n % 128 + 128] + Uvarint(n / 128)
  {
  }

  lemma HeadAndTail(h: byte, t: Bytes, x: Bytes)
    ensures ([h] + t + x)[0] == h && ([h] + t + x)[1..] == t + x && [h] + [] == [h] && [] + x == x
  {
  }

  lemma {:induction false} UvarintPrefixFree(m: nat, n: nat, x: Bytes, y: Bytes)
    requires Uvarint(m) + x == Uvarint(n) + y
    ensures m == n && x == y
  {
    UvarintOpens(m, x);
    UvarintOpens(n, y);
    if m >= 128 {
      hide Uvarint;
      UvarintPrefixFree(m / 128, n / 128, x, y);
    }
  }

  lemma PrefixedFree(a: Bytes, b: Bytes, x: Bytes, y: Bytes)
    requires LengthPrefixed(a) + x == LengthPrefixed(b) + y
    ensures a == b && x == y
  {
    hide Uvarint;
    assert LengthPrefixed(a) + x == Uvarint(|a|) + (a + x) && LengthPrefixed(b) + y == Uvarint(|b|) + (b + y);
    UvarintPrefixFree(|a|, |b|, a + x, b + y);
    assert (a + x)[..|a|] == a && (b + y)[..|b|] == b && (a + x)[|a|..] == x && (b + y)[|b|..] == y;
  }

  lemma HeaderFree(h: nat, s: nat, v: nat, h': nat, s': nat, v': nat, x: Bytes, y: Bytes)
    requires Header(h, s, v) + x == Header(h', s', v') + y
    ensures h == h' && s == s' && v == v' && x == y
  {
    hide Uvarint;
    assert Header(h, s, v) + x == Varint(h) + (Varint(s) + (Varint(v) + x));
    assert Header(h', s', v') + y == Varint(h') + (Varint(s') + (Varint(v') + y));
    UvarintPrefixFree(2 * h, 2 * h', Varint(s) + (Varint(v) + x), Varint(s') + (Varint(v') + y));
    UvarintPrefixFree(2 * s, 2 * s', Varint(v) + x, Varint(v') + y);
    UvarintPrefixFree(2 * v, 2 * v', x, y);
  }

  /** The bytes hashed for a node. */
  function Preimage(t: Tree): Bytes {
    match t
    case Leaf(k, v, version) => LeafPreimage(version, k, v)
    case Branch(_, version, height, size, l, r) => InnerPreimage(height, size, version, Hash(l), Hash(r))
  }

  /** Everything hashed for a tree: the bytes of its nodes and the values of its leaves. */
  ghost function Hashed(t: Tree): set<Bytes> {
    match t
    case Leaf(_, v, _) => {Preimage(t), v}
    case Branch(_, _, _, _, l, r) => {Preimage(t)} + Hashed(l) + Hashed(r)
  }

  function Tail(t: Tree): Bytes {
    match t
    case Leaf(k, v, _) => LengthPrefixed(k) + LengthPrefixed(Sha256(v))
    case Branch(_, _, _, _, l, r) => LengthPrefixed(Hash(l)) + LengthPrefixed(Hash(r))
  }

  lemma PreimageSplits(t: Tree)
    ensures Preimage(t) == Header(Height(t), Size(t), t.version) + Tail(t)
  {
    hide Header, LengthPrefixed, Hash;
  }

  /** Equal preimages are of the same kind, with equal parts. */
  lemma SameParts(t: Tree, u: Tree)
    requires Preimage(t) == Preimage(u) && Balanced(t) && Balanced(u)
    ensures Height(t) == Height(u) && Size(t) == Size(u) && t.version == u.version && (t.Leaf? <==> u.Leaf?)
    ensures t.Leaf? ==> t.key == u.key && Sha256(t.value) == Sha256(u.value)
    ensures t.Branch? ==> Hash(t.left) == Hash(u.left) && Hash(t.right) == Hash(u.right)
  {
    hide Header, LengthPrefixed, Hash, Preimage;
    PreimageSplits(t);
    PreimageSplits(u);
    HeaderFree(Height(t), Size(t), t.version, Height(u), Size(u), u.version, Tail(t), Tail(u));
    if t.Leaf? {
      PrefixedFree(t.key, u.key, LengthPrefixed(Sha256(t.value)), LengthPrefixed(Sha256(u.value)));
      Whole(Sha256(t.value), Sha256(u.value));
    } else {
      PrefixedFree(Hash(t.left), Hash(u.left), LengthPrefixed(Hash(t.right)), LengthPrefixed(Hash(u.right)));
      Whole(Hash(t.right), Hash(u.right));
    }
  }

  lemma Whole(a: Bytes, b: Bytes)
    requires LengthPrefixed(a) == LengthPrefixed(b)
    ensures a == b
  {
    hide LengthPrefixed;
    assert LengthPrefixed(a) + [] == LengthPrefixed(b) + [];
    PrefixedFree(a, b, [], []);
  }

  // ------------------------------------------------------------------ what is hashed

  /** The fields of a preimage: three signed varints and two length-prefixed parts. */
  datatype NodeBytes = NodeBytes(height: int, size: int, version: int, first: Bytes, second: Bytes)

  function ReadNode(b: Bytes): Read<NodeBytes> {
    match ReadVarint(b)
    case Err(e) => Err(e)
    case Ok(height, b1) =>
      match ReadVarint(b1)
      case Err(e) => Err(e)
      case Ok(size, b2) =>
        match ReadVarint(b2)
        case Err(e) => Err(e)
        case Ok(version, b3) =>
          match ReadPrefixed(b3)
          case Err(e) => Err(e)
          case Ok(first, b4) =>
            match ReadPrefixed(b4)
            case Err(e) => Err(e)
            case Ok(second, rest) => Ok(NodeBytes(height, size, version, first, second), rest)
  }

  /** A node is hashed over its height, size and version, then a leaf over its key and the digest of its
      value, and a branch over the hashes of its left and its right child; nothing follows. */
  lemma HashedBytes(t: Tree)
    requires Height(t) < TWO_63 && Size(t) < TWO_63 && t.version < TWO_63 && (t.Leaf? ==> |t.key| < TWO_64)
    ensures Hash(t) == Sha256(Preimage(t))
    ensures ReadNode(Preimage(t)) == Ok(
      if t.Leaf? then NodeBytes(0, 1, t.version, t.key, Sha256(t.value))
      else NodeBytes(t.height, t.size, t.version, Hash(t.left), Hash(t.right)), [])
  {
    hide Varint, ReadVarint, LengthPrefixed, ReadPrefixed, Hash;
    HashIs(t);
    var first, second := if t.Leaf? then t.key else Hash(t.left), if t.Leaf? then Sha256(t.value) else Hash(t.right);
    FieldsReadBack(Height(t), Size(t), t.version, first, second);
  }

  lemma FieldsReadBack(height: nat, size: nat, version: nat, first: Bytes, second: Bytes)
    requires height < TWO_63 && size < TWO_63 && version < TWO_63 && |first| < TWO_64 && |second| < TWO_64
    ensures ReadNode(Header(height, size, version) + LengthPrefixed(first) + LengthPrefixed(second))
      == Ok(NodeBytes(height, size, version, first, second), [])
  {
    hide Varint, ReadVarint, LengthPrefixed, ReadPrefixed;
    var b4 := LengthPrefixed(second) + [];
    var b3 := LengthPrefixed(first) + b4;
    var b2 := Varint(version) + b3;
    var b1 := Varint(size) + b2;
    assert Header(height, size, version) + LengthPrefixed(first) + LengthPrefixed(second) == Varint(height) + b1;
    VarintRoundTrip(height, b1);
    VarintRoundTrip(size, b2);
    VarintRoundTrip(version, b3);
    PrefixedRoundTrip(first, b4);
    PrefixedRoundTrip(second, []);
  }

  // ------------------------------------------------------------------ binding

  /** Two different well-formed trees with one hash give two different byte strings, one hashed for each
      tree, with one digest. */
  lemma {:induction false} HashBinds(t: Tree, u: Tree) returns (x: Bytes, y: Bytes)
    requires WellFormed(t) && WellFormed(u) && t != u && Hash(t) == Hash(u)
    ensures x != y && Sha256(x) == Sha256(y) && x in Hashed(t) && y in Hashed(u)
    decreases t
  {
    hide Preimage, Hash;
    HashIs(t);
    HashIs(u);
    if Preimage(t) != Preimage(u) {
      x, y := Preimage(t), Preimage(u);
    } else {
      SameParts(t, u);
      if t.Leaf? {
        x, y := t.value, u.value;
      } else if t.left != u.left {
        x, y := HashBinds(t.left, u.left);
      } else {
        x, y := HashBinds(t.right, u.right);
      }
    }
  }

  lemma HashIs(t: Tree)
    ensures Hash(t) == Sha256(Preimage(t))
  {
    HashParts(t);
  }
}
