/** The snapshot's files as bytes: fixed-size records for branches and leaves, and a blob of
    length-prefixed keys and values. The writer keeps them readable as the records of `Snapshot`. */
module SnapshotFiles {
  import opened Bytes
  import opened Encoding
  import opened Avl
  import opened Snapshot
  import opened Hashing
  import V = Versioned

  const SIZE_NODE := 52
  const SIZE_LEAF := 52

  // ------------------------------------------------------------------ record layout

  function EncodeNode(rec: NodeRecord): (b: Bytes)
    requires rec.height < 0x100 && rec.preTrees < 0x100
    ensures |b| == 20 + |rec.hash|
  {
    [rec.height, rec.preTrees, 0, 0] + LittleEndian(rec.version, 8) + LittleEndian(rec.size, 4)
      + LittleEndian(rec.keyLeaf, 4) + rec.hash
  }

  function DecodeNode(b: Bytes): NodeRecord
    requires |b| == SIZE_NODE
  {
    NodeRecord(b[0], b[1], FromLittleEndian(b[4..12]), FromLittleEndian(b[12..16]), FromLittleEndian(b[16..20]),
      b[20..])
  }

  predicate NodeFits(rec: NodeRecord) {
    && rec.height < 0x100 && rec.preTrees < 0x100 && rec.version < TWO_64
    && rec.size < TWO_32 && rec.keyLeaf < TWO_32 && |rec.hash| == 32
  }

  lemma NodeRoundTrip(rec: NodeRecord)
    requires NodeFits(rec)
    ensures DecodeNode(EncodeNode(rec)) == rec
  {
    hide LittleEndian, FromLittleEndian;
    var v, s, k := LittleEndian(rec.version, 8), LittleEndian(rec.size, 4), LittleEndian(rec.keyLeaf, 4);
    var b := [rec.height, rec.preTrees, 0, 0] + v + s + k + rec.hash;
    assert b[4..12] == v && b[12..16] == s && b[16..20] == k && b[20..] == rec.hash;
    RoundTrip64(rec.version);
    RoundTrip32(rec.size);
    RoundTrip32(rec.keyLeaf);
  }

  /** Where the fields of a branch's record are. */
  lemma NodeLayout(rec: NodeRecord)
    requires NodeFits(rec)
    ensures var b := EncodeNode(rec);
      && |b| == 52 && b[0] == rec.height && b[1] == rec.preTrees && NumberAt(b, 4, 8, rec.version)
      && NumberAt(b, 12, 4, rec.size) && NumberAt(b, 16, 4, rec.keyLeaf) && b[20..] == rec.hash
  {
    hide LittleEndian, NumberAt;
    var v, s, k := LittleEndian(rec.version, 8), LittleEndian(rec.size, 4), LittleEndian(rec.keyLeaf, 4);
    var b := [rec.height, rec.preTrees, 0, 0] + v + s + k + rec.hash;
    assert b[4..12] == v && b[12..16] == s && b[16..20] == k && b[20..] == rec.hash;
    EncodedNumber(b, 4, 8, rec.version);
    EncodedNumber(b, 12, 4, rec.size);
    EncodedNumber(b, 16, 4, rec.keyLeaf);
  }

  /** What a leaf record holds: the key and value are in the blob. */
  datatype LeafEntry = LeafEntry(version: nat, keyLength: nat, keyOffset: nat, hash: Bytes)

  function EncodeLeaf(e: LeafEntry): (b: Bytes)
    ensures |b| == 20 + |e.hash|
  {
    LittleEndian(e.version, 8) + LittleEndian(e.keyLength, 4) + LittleEndian(e.keyOffset, 8) + e.hash
  }

  function DecodeLeaf(b: Bytes): LeafEntry
    requires |b| == SIZE_LEAF
  {
    LeafEntry(FromLittleEndian(b[0..8]), FromLittleEndian(b[8..12]), FromLittleEndian(b[12..20]), b[20..])
  }

  lemma LeafRoundTrip(e: LeafEntry)
    requires e.version < TWO_64 && e.keyLength < TWO_32 && e.keyOffset < TWO_64 && |e.hash| == 32
    ensures DecodeLeaf(EncodeLeaf(e)) == e
  {
    hide LittleEndian, FromLittleEndian;
    var v, l, o := LittleEndian(e.version, 8), LittleEndian(e.keyLength, 4), LittleEndian(e.keyOffset, 8);
    var b := v + l + o + e.hash;
    assert b[0..8] == v && b[8..12] == l && b[12..20] == o && b[20..] == e.hash;
    RoundTrip64(e.version);
    RoundTrip32(e.keyLength);
    RoundTrip64(e.keyOffset);
  }

  /** Where the fields of a leaf's record are. */
  lemma LeafLayout(e: LeafEntry)
    requires |e.hash| == 32
    ensures var b := EncodeLeaf(e);
      && |b| == 52 && NumberAt(b, 0, 8, e.version) && NumberAt(b, 8, 4, e.keyLength)
      && NumberAt(b, 12, 8, e.keyOffset) && b[20..] == e.hash
  {
    hide LittleEndian, NumberAt;
    var v, l, o := LittleEndian(e.version, 8), LittleEndian(e.keyLength, 4), LittleEndian(e.keyOffset, 8);
    var b := v + l + o + e.hash;
    assert b[0..8] == v && b[8..12] == l && b[12..20] == o && b[20..] == e.hash;
    EncodedNumber(b, 0, 8, e.version);
    EncodedNumber(b, 8, 4, e.keyLength);
    EncodedNumber(b, 12, 8, e.keyOffset);
  }

  // ------------------------------------------------------------------ the blob

  function KeyValueBytes(key: Bytes, value: Bytes): (b: Bytes)
    ensures |b| == 8 + |key| + |value|
  {
    LittleEndian(|key|, 4) + key + LittleEndian(|value|, 4) + value
  }

  /** Where a key and its value are in the blob, each behind its length. */
  lemma KeyValueLayout(key: Bytes, value: Bytes)
    ensures var b, end := KeyValueBytes(key, value), 4 + |key|;
      && NumberAt(b, 0, 4, |key|) && b[4..end] == key && NumberAt(b, end, 4, |value|) && b[end + 4..] == value
  {
    hide LittleEndian, NumberAt;
    var kl, vl, end := LittleEndian(|key|, 4), LittleEndian(|value|, 4), 4 + |key|;
    var b := kl + key + vl + value;
    assert b[0..4] == kl && b[4..end] == key && b[end..end + 4] == vl && b[end + 4..] == value;
    EncodedNumber(b, 0, 4, |key|);
    EncodedNumber(b, end, 4, |value|);
  }

  function Uint32At(b: Bytes, offset: nat): nat
    requires offset + 4 <= |b|
  {
    FromLittleEndian(b[offset..offset + 4])
  }

  /** Reading with both lengths taken from the blob; none when a slice would leave it. */
  function KeyValue(kvs: Bytes, offset: nat): Option<(Bytes, Bytes)> {
    if offset + 4 > |kvs| then None
    else LeafKeyValue(kvs, Uint32At(kvs, offset), offset)
  }

  /** Reading with the key's length taken from the leaf record. */
  function LeafKeyValue(kvs: Bytes, keyLength: nat, keyOffset: nat): Option<(Bytes, Bytes)> {
    var start, end := keyOffset + 4, keyOffset + 4 + keyLength;
    if end + 4 > |kvs| || end + 4 + Uint32At(kvs, end) > |kvs| then None
    else Some((kvs[start..end], kvs[end + 4..end + 4 + Uint32At(kvs, end)]))
  }

  /** A pair appended to the blob reads back at the offset where it was appended, either way. */
  lemma AppendedPair(kvs: Bytes, key: Bytes, value: Bytes)
    requires |key| < TWO_32 && |value| < TWO_32
    ensures LeafKeyValue(kvs + KeyValueBytes(key, value), |key|, |kvs|) == Some((key, value))
    ensures KeyValue(kvs + KeyValueBytes(key, value), |kvs|) == Some((key, value))
  {
    hide LittleEndian, FromLittleEndian;
    var kl, vl := LittleEndian(|key|, 4), LittleEndian(|value|, 4);
    var b := kvs + (kl + key + vl + value);
    var end := |kvs| + 4 + |key|;
    assert b[|kvs|..|kvs| + 4] == kl && b[|kvs| + 4..end] == key;
    assert b[end..end + 4] == vl && b[end + 4..end + 4 + |value|] == value;
    RoundTrip32(|key|);
    RoundTrip32(|value|);
  }

  /** What can be read stays readable, and the same, when the blob grows, whichever way it is read. */
  lemma PairStays(kvs: Bytes, more: Bytes, keyLength: nat, keyOffset: nat)
    ensures LeafKeyValue(kvs, keyLength, keyOffset).Some? ==>
      LeafKeyValue(kvs + more, keyLength, keyOffset) == LeafKeyValue(kvs, keyLength, keyOffset)
    ensures KeyValue(kvs, keyOffset).Some? ==> KeyValue(kvs + more, keyOffset) == KeyValue(kvs, keyOffset)
  {
    hide LeafKeyValue, FromLittleEndian;
    if LeafKeyValue(kvs, keyLength, keyOffset).Some? { LeafPairStays(kvs, more, keyLength, keyOffset); }
    if KeyValue(kvs, keyOffset).Some? {
      assert (kvs + more)[keyOffset..keyOffset + 4] == kvs[keyOffset..keyOffset + 4];
      LeafPairStays(kvs, more, Uint32At(kvs, keyOffset), keyOffset);
    }
  }

  lemma LeafPairStays(kvs: Bytes, more: Bytes, keyLength: nat, keyOffset: nat)
    requires LeafKeyValue(kvs, keyLength, keyOffset).Some?
    ensures LeafKeyValue(kvs + more, keyLength, keyOffset) == LeafKeyValue(kvs, keyLength, keyOffset)
  {
    hide FromLittleEndian;
    var start, end := keyOffset + 4, keyOffset + 4 + keyLength;
    var b := kvs + more;
    assert b[end..end + 4] == kvs[end..end + 4];
    var stop := end + 4 + Uint32At(kvs, end);
    assert b[start..end] == kvs[start..end] && b[end + 4..stop] == kvs[end + 4..stop];
  }

  // ------------------------------------------------------------------ what the bytes mean

  function RecordAt(b: Bytes, i: nat): (r: Bytes)
    requires 52 * i + 52 <= |b|
    ensures |r| == 52
  {
    b[52 * i..52 * i + 52]
  }

  function ReadNode(nodes: Bytes, i: nat): NodeRecord
    requires 52 * i + 52 <= |nodes|
  {
    DecodeNode(RecordAt(nodes, i))
  }

  function ReadLeaf(leaves: Bytes, kvs: Bytes, i: nat): Option<LeafRecord>
    requires 52 * i + 52 <= |leaves|
  {
    var e := DecodeLeaf(RecordAt(leaves, i));
    match LeafKeyValue(kvs, e.keyLength, e.keyOffset)
    case None => None
    case Some((key, value)) => Some(LeafRecord(e.version, key, value, e.hash))
  }

  ghost predicate NodesRead(nodes: Bytes, records: seq<NodeRecord>) {
    && |nodes| == 52 * |records|
    && forall i :: 0 <= i < |records| ==> ReadNode(nodes, i) == records[i]
  }

  ghost predicate LeavesRead(leaves: Bytes, kvs: Bytes, records: seq<LeafRecord>) {
    && |leaves| == 52 * |records|
    && forall i :: 0 <= i < |records| ==> ReadLeaf(leaves, kvs, i) == Some(records[i])
  }

  lemma RecordStays(b: Bytes, more: Bytes, i: nat)
    requires 52 * i + 52 <= |b|
    ensures RecordAt(b + more, i) == RecordAt(b, i)
  {
  }

  lemma RecordLast(b: Bytes, rec: Bytes, i: nat)
    requires |b| == 52 * i && |rec| == 52
    ensures RecordAt(b + rec, i) == rec
  {
  }

  lemma NodeAppended(nodes: Bytes, records: seq<NodeRecord>, rec: NodeRecord)
    requires NodesRead(nodes, records) && NodeFits(rec)
    ensures NodesRead(nodes + EncodeNode(rec), records + [rec])
  {
    hide RecordAt, EncodeNode, DecodeNode;
    forall i | 0 <= i < |records| ensures ReadNode(nodes + EncodeNode(rec), i) == records[i] {
      RecordStays(nodes, EncodeNode(rec), i);
    }
    RecordLast(nodes, EncodeNode(rec), |records|);
    NodeRoundTrip(rec);
  }

  lemma LeafAppended(leaves: Bytes, kvs: Bytes, records: seq<LeafRecord>, rec: LeafRecord)
    requires LeavesRead(leaves, kvs, records) && LeafFits(kvs, rec)
    ensures LeavesRead(leaves + EncodeLeaf(LeafEntry(rec.version, |rec.key|, |kvs|, rec.hash)),
              kvs + KeyValueBytes(rec.key, rec.value), records + [rec])
  {
    hide RecordAt, EncodeLeaf, DecodeLeaf, KeyValueBytes, LeafKeyValue;
    var e, pair := LeafEntry(rec.version, |rec.key|, |kvs|, rec.hash), KeyValueBytes(rec.key, rec.value);
    var leaves', kvs' := leaves + EncodeLeaf(e), kvs + pair;
    forall i | 0 <= i < |records| ensures ReadLeaf(leaves', kvs', i) == Some(records[i]) {
      RecordStays(leaves, EncodeLeaf(e), i);
      assert ReadLeaf(leaves, kvs, i) == Some(records[i]);
      var d := DecodeLeaf(RecordAt(leaves, i));
      PairStays(kvs, pair, d.keyLength, d.keyOffset);
    }
    RecordLast(leaves, EncodeLeaf(e), |records|);
    LeafRoundTrip(e);
    AppendedPair(kvs, rec.key, rec.value);
  }

  predicate LeafFits(kvs: Bytes, rec: LeafRecord) {
    && rec.version < TWO_64 && |rec.key| < TWO_32 && |rec.value| < TWO_32
    && |kvs| < TWO_64 && |rec.hash| == 32
  }

  // ------------------------------------------------------------------ the writer

  /** Bytes of the blob a tree needs. */
  function BlobSize(t: Tree): nat {
    match t
    case Leaf(k, v, _) => 8 + |k| + |v|
    case Branch(_, _, _, _, l, r) => BlobSize(l) + BlobSize(r)
  }

  /** Keys, values and versions fit their fields. */
  predicate Storable(t: Tree) {
    match t
    case Leaf(k, v, version) => |k| < TWO_32 && |v| < TWO_32 && version < TWO_64
    case Branch(_, version, _, _, l, r) => version < TWO_64 && Storable(l) && Storable(r)
  }

  class SnapshotWriter {
    var nodes: Bytes
    var leaves: Bytes
    var kvs: Bytes
    var branchCounter: nat
    var leafCounter: nat
    var kvsOffset: nat
    ghost var files: Files

    ghost predicate Valid()
      reads this
    {
      && NodesRead(nodes, files.nodes) && LeavesRead(leaves, kvs, files.leaves)
      && branchCounter == |files.nodes| && leafCounter == |files.leaves| && kvsOffset == |kvs|
      && leafCounter < TWO_32 && branchCounter < TWO_32
    }

    constructor ()
      ensures Valid() && files == EMPTY && kvs == []
    {
      nodes, leaves, kvs := [], [], [];
      branchCounter, leafCounter, kvsOffset := 0, 0, 0;
      files := EMPTY;
    }

    method WriteKeyValue(key: Bytes, value: Bytes)
      requires kvsOffset == |kvs|
      modifies this`kvs, this`kvsOffset
      ensures kvs == old(kvs) + KeyValueBytes(key, value) && kvsOffset == |kvs|
    {
      kvs := kvs + LittleEndian(|key|, 4);
      kvs := kvs + key;
      kvs := kvs + LittleEndian(|value|, 4);
      kvs := kvs + value;
      kvsOffset := kvsOffset + 4 + 4 + |key| + |value|;
    }

    method WriteLeaf(version: nat, key: Bytes, value: Bytes, hash: Bytes)
      requires Valid() && LeafFits(kvs, LeafRecord(version, key, value, hash)) && leafCounter + 1 < TWO_32
      modifies this
      ensures Valid() && files == Snapshot.WriteLeaf(old(files), version, key, value, hash)
      ensures |kvs| == |old(kvs)| + 8 + |key| + |value|
    {
      hide EncodeLeaf, KeyValueBytes, LeavesRead, NodesRead;
      var buf := EncodeLeaf(LeafEntry(version, |key|, kvsOffset, hash));
      LeafAppended(leaves, kvs, files.leaves, LeafRecord(version, key, value, hash));
      WriteKeyValue(key, value);
      leaves := leaves + buf;
      leafCounter := leafCounter + 1;
      files := Snapshot.WriteLeaf(files, version, key, value, hash);
    }

    method WriteBranch(version: nat, size: nat, height: nat, preTrees: nat, keyLeaf: nat, hash: Bytes)
      requires Valid() && NodeFits(NodeRecord(height, preTrees, version, size, keyLeaf, hash))
      requires branchCounter + 1 < TWO_32
      modifies this
      ensures Valid() && files == Snapshot.WriteBranch(old(files), version, size, height, preTrees, keyLeaf, hash)
      ensures kvs == old(kvs)
    {
      hide EncodeNode, LeavesRead, NodesRead;
      var rec := NodeRecord(height, preTrees, version, size, keyLeaf, hash);
      NodeAppended(nodes, files.nodes, rec);
      nodes := nodes + EncodeNode(rec);
      branchCounter := branchCounter + 1;
      files := Snapshot.WriteBranch(files, version, size, height, preTrees, keyLeaf, hash);
    }

    /** Writes a tree in depth-first post-order; the 8- and 32-bit casts are those of the source. */
    method WriteRecursive(t: Tree)
      requires Valid() && Fits(files, t) && Storable(t) && |kvs| + BlobSize(t) < TWO_64
      modifies this
      ensures Valid() && files == WriteTree(Hash, old(files), t)
      ensures |kvs| == |old(kvs)| + BlobSize(t)
      decreases t
    {
      hide LeavesRead, NodesRead, Hash, U8, U32;
      if t.Leaf? {
        WriteLeaf(t.version, t.key, t.value, Hash(t));
        return;
      }
      BranchFits(files, t);
      var preTrees := U8(leafCounter - branchCounter);
      WriteRecursive(t.left);
      var keyLeaf := leafCounter;
      WriteRecursive(t.right);
      WriteBranch(t.version, U32(t.size), U8(t.height), preTrees, keyLeaf, Hash(t));
    }
  }

  /** The casts of one branch lose nothing, and the children fit in turn. */
  lemma BranchFits(f: Files, t: Tree)
    requires Fits(f, t) && t.Branch?
    ensures Fits(f, t.left) && Fits(WriteTree(Hash, f, t.left), t.right)
    ensures var pre := |f.leaves| - |f.nodes|; U8(pre) == U8(U32(|f.leaves|) - U32(|f.nodes|)) == pre
    ensures U32(t.size) == t.size && U8(t.height) == t.height
    ensures var g := WriteTree(Hash, f, t.left); U32(|g.leaves|) == |g.leaves| < TWO_32
    ensures var g := WriteTree(Hash, WriteTree(Hash, f, t.left), t.right);
      |g.nodes| + 1 < TWO_32 && |g.leaves| < TWO_32
    ensures |f.leaves| - |f.nodes| < 0x100 && t.size < TWO_32 && t.height < 0x100
  {
    hide U8, U32, Hash, WriteTree;
    FitsChildren(Hash, f, t);
    WriteGrows(Hash, f, t.left);
    WriteGrows(Hash, WriteTree(Hash, f, t.left), t.right);
    SmallCounts(|f.leaves|, |f.nodes|, |f.leaves| - |f.nodes|);
  }

  // ------------------------------------------------------------------ nothing is cut off

  /** Every balanced tree with fewer than 2^32 leaves fits: the height bound keeps its byte fields. */
  lemma EveryTreeFits(t: Tree)
    requires Balanced(t) && Size(t) < TWO_32
    ensures Fits(EMPTY, t) && Height(t) <= 45
  {
    V.HeightBound(t);
  }

  /** How deep the branch with index i lies; the branches of a tree are numbered from `branch` in
      post-order. */
  function DepthOf(t: Tree, branch: int, i: int): nat {
    if t.Leaf? || i >= branch + Size(t) - 2 then 0
    else if i < branch + Size(t.left) - 1 then 1 + DepthOf(t.left, branch, i)
    else 1 + DepthOf(t.right, branch + Size(t.left) - 1, i)
  }

  /** The subtrees pending before a branch are at most as many as it is deep: one for each turn to the
      right on the way to it. */
  lemma {:induction false} PendingBelowDepth(f: Files, t: Tree, leaf: nat, branch: nat, i: nat)
    requires Holds(f, t, leaf, branch) && Balanced(t) && branch <= leaf && branch <= i < branch + Size(t) - 1
    ensures i < |f.nodes| && f.nodes[i].preTrees <= leaf - branch + DepthOf(t, branch, i)
    ensures f.nodes[i].height + DepthOf(t, branch, i) <= Height(t)
    decreases t
  {
    SizePositive(t);
    if t.Branch? {
      SizePositive(t.left);
      SizePositive(t.right);
      var ls := Size(t.left);
      if i < branch + ls - 1 {
        PendingBelowDepth(f, t.left, leaf, branch, i);
      } else if i < branch + t.size - 2 {
        PendingBelowDepth(f, t.right, leaf + ls, branch + ls - 1, i);
      }
    }
  }

  /** What has been written when the leaf with index j of a tree is reached. */
  ghost function BeforeLeaf(f: Files, t: Tree, j: nat): Files
    decreases t
  {
    if t.Leaf? then f
    else if j < Size(t.left) then BeforeLeaf(f, t.left, j)
    else BeforeLeaf(WriteTree(Hash, f, t.left), t.right, j - Size(t.left))
  }

  function LeafDepth(t: Tree, j: nat): nat {
    if t.Leaf? then 0
    else if j < Size(t.left) then 1 + LeafDepth(t.left, j)
    else 1 + LeafDepth(t.right, j - Size(t.left))
  }

  /** The same for leaves: when a leaf is written, the subtrees pending before it are at most as many as
      it is deep. */
  lemma {:induction false} LeafPendingBelowDepth(f: Files, t: Tree, j: nat)
    requires Balanced(t) && j < Size(t)
    ensures var b := BeforeLeaf(f, t, j);
      && |b.leaves| == |f.leaves| + j
      && |f.leaves| - |f.nodes| <= |b.leaves| - |b.nodes| <= |f.leaves| - |f.nodes| + LeafDepth(t, j)
    ensures LeafDepth(t, j) <= Height(t)
    decreases t
  {
    hide WriteTree, Hash;
    if t.Branch? {
      if j < Size(t.left) {
        LeafPendingBelowDepth(f, t.left, j);
      } else {
        WriteGrows(Hash, f, t.left);
        LeafPendingBelowDepth(WriteTree(Hash, f, t.left), t.right, j - Size(t.left));
      }
    }
  }

  // ------------------------------------------------------------------ whole snapshots

  const MAGIC := 1280721225
  const FORMAT := 0
  const SIZE_METADATA := 16

  function EncodeMetadata(version: nat): Bytes {
    LittleEndian(MAGIC, 4) + LittleEndian(FORMAT, 4) + LittleEndian(version, 8)
  }

  /** The letters IAVL, the format, the version. */
  lemma MetadataLayout(version: nat)
    ensures var b := EncodeMetadata(version);
      |b| == 16 && b[..4] == [0x49, 0x41, 0x56, 0x4c] && b[4..8] == [0, 0, 0, 0] && NumberAt(b, 8, 8, version)
  {
    var v := LittleEndian(version, 8);
    var b := LittleEndian(MAGIC, 4) + LittleEndian(FORMAT, 4) + v;
    assert b[8..16] == v;
    EncodedNumber(b, 8, 8, version);
    Magic();
  }

  lemma Magic()
    ensures LittleEndian(MAGIC, 4) == [0x49, 0x41, 0x56, 0x4c] && LittleEndian(FORMAT, 4) == [0, 0, 0, 0]
  {
  }

  /** The checks on opening: the version, or nothing when the metadata or the file sizes are wrong. */
  function CheckFiles(metadata: Bytes, nodes: Bytes, leaves: Bytes): Option<nat> {
    var branches, ends := |nodes| / SIZE_NODE, |leaves| / SIZE_LEAF;
    if |metadata| != SIZE_METADATA || FromLittleEndian(metadata[..4]) != MAGIC then None
    else if FromLittleEndian(metadata[4..8]) != FORMAT then None
    else if |nodes| % SIZE_NODE != 0 || |leaves| % SIZE_LEAF != 0 then None
    else if (ends > 0 && branches + 1 != ends) || (ends == 0 && branches != 0) then None
    else Some(FromLittleEndian(metadata[8..]))
  }

  /** A snapshot is opened exactly when the metadata are those of its version and the files hold whole records, one
      leaf more than branches or none of either. */
  lemma ChecksExact(metadata: Bytes, nodes: Bytes, leaves: Bytes, version: nat)
    ensures CheckFiles(metadata, nodes, leaves) == Some(version) <==>
      && version < TWO_64 && metadata == EncodeMetadata(version) && |nodes| % 52 == 0 && |leaves| % 52 == 0
      && (|leaves| == |nodes| + 52 || (nodes == [] && leaves == []))
  {
    hide LittleEndian, FromLittleEndian;
    var m, g, v := LittleEndian(MAGIC, 4), LittleEndian(FORMAT, 4), LittleEndian(version, 8);
    assert (m + g + v)[..4] == m && (m + g + v)[4..8] == g && (m + g + v)[8..] == v;
    RoundTrip32(MAGIC);
    RoundTrip32(FORMAT);
    Widths();
    if version < TWO_64 { RoundTrip64(version); }
    if |metadata| == 16 {
      assert metadata == metadata[..4] + metadata[4..8] + metadata[8..];
      LittleEndianInverse(metadata[..4]);
      LittleEndianInverse(metadata[4..8]);
      LittleEndianInverse(metadata[8..]);
    }
  }

  lemma ChecksPass(version: nat, nodes: Bytes, leaves: Bytes, f: Files)
    requires version < TWO_64 && |nodes| == 52 * |f.nodes| && |leaves| == 52 * |f.leaves|
    requires |f.leaves| > 0 ==> |f.nodes| + 1 == |f.leaves|
    requires |f.leaves| == 0 ==> |f.nodes| == 0
    ensures CheckFiles(EncodeMetadata(version), nodes, leaves) == Some(version)
  {
    hide LittleEndian, FromLittleEndian;
    var m, g, v := LittleEndian(MAGIC, 4), LittleEndian(FORMAT, 4), LittleEndian(version, 8);
    var b := m + g + v;
    assert b[..4] == m && b[4..8] == g && b[8..] == v;
    RoundTrip32(MAGIC);
    RoundTrip32(FORMAT);
    RoundTrip64(version);
  }

  /** Writing a whole snapshot, of a tree or of none: opening it succeeds and gives its version, the bytes
      read back as the records of the tree, and decoding the records from the root by index arithmetic
      gives the tree. No byte field cuts anything off. */
  method WriteSnapshot(t: Option<Tree>, version: nat) returns (w: SnapshotWriter, metadata: Bytes)
    requires version < TWO_64
    requires t.Some? ==> WellFormed(t.value) && Size(t.value) < TWO_32
    requires t.Some? ==> Storable(t.value) && BlobSize(t.value) < TWO_64
    ensures w.Valid() && CheckFiles(metadata, w.nodes, w.leaves) == Some(version)
    ensures t.None? ==> w.files == EMPTY && Root(w.files) == None
    ensures t.Some? ==> w.files == WriteTree(Hash, EMPTY, t.value)
    ensures t.Some? ==> Root(w.files).Some? && Decode(Root(w.files).value) == t
    ensures t.Some? ==> forall i :: 0 <= i < |w.files.nodes| ==>
      w.files.nodes[i].preTrees <= DepthOf(t.value, 0, i) && w.files.nodes[i].height + DepthOf(t.value, 0, i) <= 45
  {
    hide WriteTree, Decode, Hash, Storable, BlobSize, EncodeMetadata, CheckFiles;
    w := new SnapshotWriter();
    if t.Some? {
      EveryTreeFits(t.value);
      w.WriteRecursive(t.value);
      SnapshotRoundTrip(Hash, t.value);
      NoneCut(w.files, t.value);
    }
    metadata := EncodeMetadata(version);
    ChecksPass(version, w.nodes, w.leaves, w.files);
  }

  lemma NoneCut(f: Files, t: Tree)
    requires Balanced(t) && Size(t) < TWO_32 && f == WriteTree(Hash, EMPTY, t)
    ensures |f.nodes| + 1 == |f.leaves|
    ensures forall i :: 0 <= i < |f.nodes| ==>
      f.nodes[i].preTrees <= DepthOf(t, 0, i) && f.nodes[i].height + DepthOf(t, 0, i) <= 45
  {
    hide WriteTree, Hash, Holds;
    EveryTreeFits(t);
    WriteGrows(Hash, EMPTY, t);
    WriteHolds(Hash, EMPTY, t, f);
    forall i | 0 <= i < |f.nodes|
      ensures f.nodes[i].preTrees <= DepthOf(t, 0, i) && f.nodes[i].height + DepthOf(t, 0, i) <= 45
    {
      PendingBelowDepth(f, t, 0, 0, i);
    }
  }
}
