/** Node hashes. SHA-256 is any function from byte strings to 32 bytes. */
module Hashing {
  import opened Bytes
  import opened Encoding
  import opened Avl

  type Hasher = f: Bytes -> Bytes | forall x: Bytes :: |f(x)| == 32
    witness (x: Bytes) => seq(32, i => 0)

  /** An arbitrary but fixed digest function: nothing is known of it but its length. */
  const Sha256: Hasher

  function EmptyHash(): Bytes { Sha256([]) }

  /** What `writeHashBytes` writes for every node, before the part that depends on its kind. */
  function Header(height: nat, size: nat, version: nat): Bytes {
    Varint(height) + Varint(size) + Varint(version)
  }

  function LeafPreimage(version: nat, key: Bytes, value: Bytes): Bytes {
    Header(0, 1, version) + LengthPrefixed(key) + LengthPrefixed(Sha256(value))
  }

  /** The key of an inner node is not part of its preimage. */
  function InnerPreimage(height: nat, size: nat, version: nat, left: Bytes, right: Bytes): Bytes {
    Header(height, size, version) + LengthPrefixed(left) + LengthPrefixed(right)
  }

  function Hash(t: Tree): (h: Bytes)
    ensures |h| == 32
  {
    match t
    case Leaf(k, v, version) => Sha256(LeafPreimage(version, k, v))
    case Branch(_, version, height, size, l, r) => Sha256(InnerPreimage(height, size, version, Hash(l), Hash(r)))
  }

  lemma HashParts(t: Tree)
    ensures t.Leaf? ==> Hash(t) == Sha256(LeafPreimage(t.version, t.key, t.value))
    ensures t.Branch? ==>
      Hash(t) == Sha256(InnerPreimage(t.height, t.size, t.version, Hash(t.left), Hash(t.right)))
  {
  }

  function RootHash(root: Option<Tree>): Bytes {
    if root.None? then EmptyHash() else Hash(root.value)
  }
}
