/** Items of the external sorter on the way to table files: their encoding, their order, and how the
    sorted stream is split into files. */
module SorterItems {
  import opened Bytes
  import opened Encoding
  import opened ChangeSets
  import opened MergeHeap

  const TIMESTAMP_SIZE := 8
  const SIZE_KEY_LENGTH := 4

  // ------------------------------------------------------------------ encoding

  function ItemSize(p: KvPair): nat {
    |p.key| + TIMESTAMP_SIZE + 1 + SIZE_KEY_LENGTH + (if p.delete then 0 else |ValueBytes(p)|)
  }

  /** key, version, deletion flag, value of a non-deletion, key length. */
  function EncodeItem(version: nat, p: KvPair): (b: Bytes)
    ensures |b| == ItemSize(p)
  {
    p.key + LittleEndian(version, 8) + (if p.delete then [1] else [0] + ValueBytes(p)) + LittleEndian(|p.key|, 4)
  }

  /** The buffer is still zero from an offset on. */
  ghost predicate Zero(buffer: array<byte>, from: nat)
    reads buffer
  {
    forall i :: from <= i < buffer.Length ==> buffer[i] == 0
  }

  /** `copy` into the buffer at the offset reached. */
  method CopyInto(buffer: array<byte>, offset: nat, b: Bytes, ghost done: Bytes)
    requires offset + |b| <= buffer.Length && buffer[..offset] == done && Zero(buffer, offset)
    modifies buffer
    ensures buffer[..offset + |b|] == done + b && Zero(buffer, offset + |b|)
  {
    for i := 0 to |b|
      invariant buffer[..offset + i] == done + b[..i] && Zero(buffer, offset + i)
    {
      buffer[offset + i] := b[i];
      assert buffer[..offset + i + 1] == buffer[..offset + i] + [b[i]];
      assert b[..i + 1] == b[..i] + [b[i]];
    }
    assert b[..|b|] == b;
  }

  /** Fills a buffer of the computed size part by part, by offset; the flag of a non-deletion is left
      zero. */
  method EncodeSorterItem(version: nat, p: KvPair) returns (item: array<byte>)
    ensures fresh(item) && item[..] == EncodeItem(version, p)
  {
    hide LittleEndian;
    item := new byte[ItemSize(p)](_ => 0);
    ghost var t := LittleEndian(version, 8);
    CopyInto(item, 0, p.key, []);
    assert [] + p.key == p.key;
    var offset := |p.key|;
    CopyInto(item, offset, LittleEndian(version, 8), p.key);
    offset := offset + TIMESTAMP_SIZE;
    if p.delete {
      CopyInto(item, offset, [1], p.key + t);
      offset := offset + 1;
      CopyInto(item, offset, LittleEndian(|p.key|, 4), p.key + t + [1]);
    } else {
      assert item[..offset + 1] == p.key + t + [0];
      CopyInto(item, offset + 1, ValueBytes(p), p.key + t + [0]);
      offset := offset + |ValueBytes(p)| + 1;
      assert p.key + t + [0] + ValueBytes(p) == p.key + t + ([0] + ValueBytes(p));
      CopyInto(item, offset, LittleEndian(|p.key|, 4), p.key + t + ([0] + ValueBytes(p)));
    }
  }

  /** The key length stored at the end. */
  function KeyLength(item: Bytes): nat
    requires |item| >= SIZE_KEY_LENGTH
  {
    FromLittleEndian(item[|item| - SIZE_KEY_LENGTH..])
  }

  /** The timestamp bytes and the pair; none where a slice would leave the item. */
  function DecodeItem(item: Bytes): Option<(Bytes, KvPair)> {
    if |item| < SIZE_KEY_LENGTH || KeyLength(item) + TIMESTAMP_SIZE + 1 + SIZE_KEY_LENGTH > |item| then None
    else
      var keyLen := KeyLength(item);
      var offset := keyLen + TIMESTAMP_SIZE;
      var version := item[keyLen..offset];
      if item[offset] == 1 then Some((version, KvPair(true, item[..keyLen], None)))
      else Some((version, KvPair(false, item[..keyLen], Some(item[offset + 1..|item| - SIZE_KEY_LENGTH]))))
  }

  lemma EncodedParts(version: nat, p: KvPair)
    requires |p.key| < TWO_32 && version < TWO_64
    ensures var b := EncodeItem(version, p);
      && b[..|p.key|] == p.key && b[|p.key|..|p.key| + 8] == LittleEndian(version, 8)
      && KeyLength(b) == |p.key| && FromLittleEndian(b[|p.key|..|p.key| + 8]) == version
      && b[|p.key| + 8] == (if p.delete then 1 else 0)
      && (!p.delete ==> b[|p.key| + 9..|b| - 4] == ValueBytes(p))
  {
    hide LittleEndian, FromLittleEndian;
    var k, t, l := p.key, LittleEndian(version, 8), LittleEndian(|p.key|, 4);
    var mid := if p.delete then [1] else [0] + ValueBytes(p);
    var b := k + t + mid + l;
    assert b[..|k|] == k && b[|k|..|k| + 8] == t && b[|b| - 4..] == l;
    assert b[|k| + 8..|b| - 4] == mid;
    assert b[|k| + 8] == mid[0];
    assert !p.delete ==> b[|k| + 9..|b| - 4] == mid[1..] == ValueBytes(p);
    RoundTrip32(|p.key|);
    RoundTrip64(version);
  }

  /** Decoding inverts encoding; a deletion comes back without a value. */
  lemma ItemRoundTrip(version: nat, p: KvPair)
    requires |p.key| < TWO_32 && version < TWO_64
    ensures DecodeItem(EncodeItem(version, p)) == Some((LittleEndian(version, 8), AsRead(p)))
  {
    hide LittleEndian, FromLittleEndian, EncodeItem;
    EncodedParts(version, p);
    EncodedLength(version, p);
  }

  lemma EncodedLength(version: nat, p: KvPair)
    ensures |EncodeItem(version, p)| == ItemSize(p)
  {
  }

  // ------------------------------------------------------------------ order

  /** What the comparison reads of an item. */
  function KeyOf(item: Bytes): Bytes {
    if |item| < 4 || KeyLength(item) > |item| then [] else item[..KeyLength(item)]
  }

  function VersionOf(item: Bytes): nat {
    if |item| < 4 || KeyLength(item) + 8 > |item| then 0
    else FromLittleEndian(item[KeyLength(item)..KeyLength(item) + 8])
  }

  /** By key; for the same key the newer version first. */
  predicate ItemLess(a: Bytes, b: Bytes) {
    var c := Compare(KeyOf(a), KeyOf(b));
    if c != 0 then c == -1 else VersionOf(a) > VersionOf(b)
  }

  /** Fit for the external sorter. */
  lemma ItemLessIsStrictWeak()
    ensures StrictWeakOrder(ItemLess)
  {
    hide KeyOf, VersionOf;
    LessOrder();
  }

  // The timestamp comparator of the database.

  function CompareTs(a: Bytes, b: Bytes): int {
    var x, y := FromLittleEndian(a), FromLittleEndian(b);
    if x < y then -1 else if x > y then 1 else 0
  }

  function CompareWithoutTs(a: Bytes, b: Bytes): int
    requires |a| >= 8 && |b| >= 8
  {
    Compare(a[..|a| - 8], b[..|b| - 8])
  }

  /** Internal keys: bytes first, then the larger timestamp first. */
  function CompareInternal(a: Bytes, b: Bytes): int
    requires |a| >= 8 && |b| >= 8
  {
    var c := CompareWithoutTs(a, b);
    if c != 0 then c else -CompareTs(a[|a| - 8..], b[|b| - 8..])
  }

  /** The key an item gets in the table file: the store's prefix, the key, the timestamp. */
  function InternalKey(prefix: Bytes, version: nat, key: Bytes): (r: Bytes)
    ensures |r| >= 8
  {
    prefix + key + LittleEndian(version, 8)
  }

  lemma InternalParts(prefix: Bytes, version: nat, key: Bytes)
    requires version < TWO_64
    ensures var r := InternalKey(prefix, version, key);
      && r[..|r| - 8] == prefix + key && r[|r| - 8..] == LittleEndian(version, 8)
      && FromLittleEndian(r[|r| - 8..]) == version
  {
    hide LittleEndian, FromLittleEndian;
    var r := prefix + key + LittleEndian(version, 8);
    assert r[..|r| - 8] == prefix + key && r[|r| - 8..] == LittleEndian(version, 8);
    RoundTrip64(version);
  }

  lemma ComparePrefixed(prefix: Bytes, a: Bytes, b: Bytes)
    ensures Compare(prefix + a, prefix + b) == Compare(a, b)
  {
    LessPrefix(prefix, a, b);
    if a != b {
      assert (prefix + a)[|prefix|..] == a && (prefix + b)[|prefix|..] == b;
    }
  }

  /** The order that is meant: by key, and the versions of one key from the newest to the oldest. */
  predicate Before(k: Bytes, v: nat, l: Bytes, w: nat) { Less(k, l) || (k == l && v > w) }

  /** The two orders, written apart, are both the order that is meant: an item sorts before another, and the
      comparator puts its prefixed key first, exactly when its key is less, or the same with a newer version. */
  lemma OrdersAgree(prefix: Bytes, v: nat, p: KvPair, w: nat, q: KvPair)
    requires |p.key| < TWO_32 && |q.key| < TWO_32 && v < TWO_64 && w < TWO_64
    ensures ItemLess(EncodeItem(v, p), EncodeItem(w, q)) <==> Before(p.key, v, q.key, w)
    ensures CompareInternal(InternalKey(prefix, v, p.key), InternalKey(prefix, w, q.key)) < 0
       <==> Before(p.key, v, q.key, w)
    ensures CompareInternal(InternalKey(prefix, v, p.key), InternalKey(prefix, w, q.key)) == 0
       <==> p.key == q.key && v == w
  {
    hide LittleEndian, FromLittleEndian, EncodeItem, InternalKey;
    LessOrder();
    EncodedParts(v, p);
    EncodedParts(w, q);
    EncodedLength(v, p);
    EncodedLength(w, q);
    InternalParts(prefix, v, p.key);
    InternalParts(prefix, w, q.key);
    ComparePrefixed(prefix, p.key, q.key);
  }

  // ------------------------------------------------------------------ splitting into files

  /** The items of one key are next to each other. */
  ghost predicate Grouped(items: seq<Bytes>) {
    forall i, j, k :: 0 <= i < j < k < |items| && KeyOf(items[i]) == KeyOf(items[k]) ==>
      KeyOf(items[j]) == KeyOf(items[i])
  }

  /** A sorted stream is grouped. */
  lemma SortedIsGrouped(items: seq<Bytes>)
    requires InOrder(ItemLess, items)
    ensures Grouped(items)
  {
    hide KeyOf, VersionOf;
    LessOrder();
    forall i, j, k | 0 <= i < j < k < |items| && KeyOf(items[i]) == KeyOf(items[k])
      ensures KeyOf(items[j]) == KeyOf(items[i])
    {
      assert NotAfter(ItemLess, items[i], items[j]) && NotAfter(ItemLess, items[j], items[k]);
    }
  }

  function Concat<T>(files: seq<seq<T>>): seq<T> {
    if files == [] then [] else Concat(files[..|files| - 1]) + files[|files| - 1]
  }

  predicate Holds(file: seq<Bytes>, key: Bytes) { exists i :: 0 <= i < |file| && KeyOf(file[i]) == key }

  /** No key is in two files. */
  ghost predicate KeysApart(files: seq<seq<Bytes>>) {
    forall f, g, key :: 0 <= f < g < |files| && Holds(files[f], key) ==> !Holds(files[g], key)
  }

  /** The files hold the items so far, in order, and no key is in two of them. */
  ghost predicate Splits(files: seq<seq<Bytes>>, done: seq<Bytes>) {
    && files != [] && Concat(files) == done && KeysApart(files)
    && forall f, key :: 0 <= f < |files| && Holds(files[f], key) ==> Holds(done, key)
  }

  lemma HoldsAppend(file: seq<Bytes>, item: Bytes, key: Bytes)
    ensures Holds(file + [item], key) <==> Holds(file, key) || KeyOf(item) == key
  {
    var r := file + [item];
    if Holds(file, key) {
      var i :| 0 <= i < |file| && KeyOf(file[i]) == key;
      assert KeyOf(r[i]) == key;
    }
    assert r[|file|] == item;
  }

  lemma NewFile(files: seq<seq<Bytes>>, done: seq<Bytes>)
    requires Splits(files, done)
    ensures Splits(files + [[]], done)
  {
    var r := files + [[]];
    assert r[..|files|] == files;
    assert forall key :: !Holds([], key);
  }

  /** An item joins the last file: its key is there already, or nowhere yet. */
  lemma JoinLast(files: seq<seq<Bytes>>, done: seq<Bytes>, item: Bytes)
    requires Splits(files, done)
    requires Holds(files[|files| - 1], KeyOf(item)) || !Holds(done, KeyOf(item))
    ensures Splits(files[|files| - 1 := files[|files| - 1] + [item]], done + [item])
    ensures Holds(files[|files| - 1] + [item], KeyOf(item))
  {
    hide KeyOf, Holds;
    var n := |files| - 1;
    var r := files[n := files[n] + [item]];
    assert r[..n] == files[..n];
    assert Concat(r) == Concat(files[..n]) + (files[n] + [item]) == done + [item];
    forall key ensures Holds(r[n], key) <==> Holds(files[n], key) || KeyOf(item) == key {
      HoldsAppend(files[n], item, key);
    }
    forall f, key | 0 <= f < |r| && Holds(r[f], key) ensures Holds(done + [item], key) {
      HoldsAppend(done, item, key);
      assert f != n ==> r[f] == files[f];
    }
    forall f, g, key | 0 <= f < g < |r| && Holds(r[f], key) ensures !Holds(r[g], key) {
      assert r[f] == files[f] && Holds(done, key);
    }
  }

  /** In a grouped stream a key that differs from the one before it is new. */
  lemma NewKey(items: seq<Bytes>, i: nat)
    requires Grouped(items) && i < |items| && (i > 0 ==> KeyOf(items[i - 1]) != KeyOf(items[i]))
    ensures !Holds(items[..i], KeyOf(items[i]))
  {
    hide KeyOf;
    if i > 0 {
      var before := KeyOf(items[i - 1]);
      forall j | 0 <= j < i - 1 ensures KeyOf(items[j]) != KeyOf(items[i]) {}
    }
    assert forall j :: 0 <= j < i ==> items[..i][j] == items[j];
  }

  /** A finished file was large enough, and no file goes on past a change of key once it is. */
  ghost predicate CutAtSize(files: seq<seq<Bytes>>, fileSize: seq<Bytes> -> nat, limit: nat) {
    && (forall f :: 0 <= f < |files| - 1 ==> fileSize(files[f]) >= limit)
    && (forall f :: 0 <= f < |files| ==> CutFile(files[f], fileSize, limit))
  }

  ghost predicate CutFile(file: seq<Bytes>, fileSize: seq<Bytes> -> nat, limit: nat) {
    forall p :: 1 <= p < |file| && KeyOf(file[p - 1]) != KeyOf(file[p]) ==> fileSize(file[..p]) < limit
  }

  lemma CutJoin(file: seq<Bytes>, item: Bytes, fileSize: seq<Bytes> -> nat, limit: nat)
    requires CutFile(file, fileSize, limit)
    requires file != [] && KeyOf(file[|file| - 1]) != KeyOf(item) ==> fileSize(file) < limit
    ensures CutFile(file + [item], fileSize, limit)
  {
    hide KeyOf;
    var r := file + [item];
    forall p | 1 <= p < |r| && KeyOf(r[p - 1]) != KeyOf(r[p]) ensures fileSize(r[..p]) < limit {
      if p < |file| {
        assert r[..p] == file[..p] && r[p - 1] == file[p - 1] && r[p] == file[p];
      } else {
        assert r[..p] == file;
      }
    }
  }

  /** Writes the stream to files; a new one starts exactly when the current one is large enough and the
      key changes. `fileSize` is what the table writer reports for a file so far. Every key ends up in
      one file. */
  method SplitFiles(items: seq<Bytes>, fileSize: seq<Bytes> -> nat, limit: nat) returns (files: seq<seq<Bytes>>)
    requires Grouped(items)
    ensures Concat(files) == items && KeysApart(files) && CutAtSize(files, fileSize, limit)
  {
    hide KeyOf, Grouped;
    files := [[]];
    var lastKey: Bytes := [];
    assert files[..0] == [];
    for i := 0 to |items|
      invariant Splits(files, items[..i]) && CutAtSize(files, fileSize, limit)
      invariant i > 0 ==> lastKey == KeyOf(items[i - 1]) && Holds(files[|files| - 1], lastKey)
      invariant var file := files[|files| - 1]; file != [] ==> KeyOf(file[|file| - 1]) == lastKey
    {
      hide Splits, Holds, CutFile;
      var key := KeyOf(items[i]);
      assert items[..i + 1] == items[..i] + [items[i]];
      if i == 0 || lastKey != key { NewKey(items, i); }
      if fileSize(files[|files| - 1]) >= limit && lastKey != key {
        NewFile(files, items[..i]);
        files := files + [[]];
        NothingCut(fileSize, limit);
      }
      JoinLast(files, items[..i], items[i]);
      CutJoin(files[|files| - 1], items[i], fileSize, limit);
      files := files[|files| - 1 := files[|files| - 1] + [items[i]]];
      lastKey := key;
    }
    assert items[..|items|] == items;
  }

  lemma NothingCut(fileSize: seq<Bytes> -> nat, limit: nat)
    ensures CutFile([], fileSize, limit)
  {
  }
}
