/** Delta encoding of a sequence of keys: each stores only what differs from the one before. */
module DeltaEncoding {
  import opened Bytes
  import opened Encoding

  /** The length of the longest common prefix. */
  function Shared(a: Bytes, b: Bytes): (n: nat)
    ensures n <= |a| && n <= |b| && a[..n] == b[..n]
    ensures n == |a| || n == |b| || a[n] != b[n]
  {
    SharedFrom(a, b, 0)
  }

  function SharedFrom(a: Bytes, b: Bytes, from: nat): (n: nat)
    requires from <= |a| && from <= |b| && a[..from] == b[..from]
    ensures from <= n <= |a| && n <= |b| && a[..n] == b[..n]
    ensures n == |a| || n == |b| || a[n] != b[n]
    decreases |a| - from
  {
    if from == |a| || from == |b| || a[from] != b[from] then from
    else
      assert a[..from + 1] == a[..from] + [a[from]] && b[..from + 1] == b[..from] + [b[from]];
      SharedFrom(a, b, from + 1)
  }

  lemma {:induction false} SharedUnique(a: Bytes, b: Bytes, n: nat)
    requires n <= |a| && n <= |b| && a[..n] == b[..n] && (n == |a| || n == |b| || a[n] != b[n])
    ensures Shared(a, b) == n
  {
    var m := Shared(a, b);
    forall k | 0 <= k < n ensures a[k] == b[k] { assert a[..n][k] == b[..n][k]; }
    forall k | 0 <= k < m ensures a[k] == b[k] { assert a[..m][k] == b[..m][k]; }
  }

  method DiffOffset(a: Bytes, b: Bytes) returns (off: nat)
    ensures off == Shared(a, b)
  {
    off := 0;
    var l := if |a| < |b| then |a| else |b|;
    while off < l
      invariant off <= l && a[..off] == b[..off]
    {
      if a[off] != b[off] { break; }
      assert a[..off + 1] == a[..off] + [a[off]] && b[..off + 1] == b[..off] + [b[off]];
      off := off + 1;
    }
    SharedUnique(a, b, off);
  }

  function EncodeKey(last: Bytes, key: Bytes): Bytes {
    var shared := Shared(last, key);
    Uvarint(shared) + Uvarint(|key| - shared) + key[shared..]
  }

  /** Reads one key; a shared length beyond the last key stops the code with a slice error. */
  function DecodeKey(last: Bytes, b: Bytes): Read<Bytes> {
    match ReadUvarint(b)
    case Err(e) => Err(e)
    case Ok(shared, rest) =>
      match ReadUvarint(rest)
      case Err(e) => Err(e)
      case Ok(nonShared, tail) =>
        if shared > |last| then Err(Mismatch)
        else if |tail| < nonShared then Err(if |tail| == 0 then Eof else UnexpectedEof)
        else Ok(last[..shared] + tail[..nonShared], tail[nonShared..])
  }

  /** Decoding with the same last key gives the key back and leaves what follows. */
  lemma KeyRoundTrip(last: Bytes, key: Bytes, rest: Bytes)
    requires |key| < TWO_64
    ensures DecodeKey(last, EncodeKey(last, key) + rest) == Ok(key, rest)
  {
    hide Uvarint, ReadUvarint;
    var shared := Shared(last, key);
    var tail := key[shared..] + rest;
    UvarintRoundTrip(shared, Uvarint(|key| - shared) + tail);
    UvarintRoundTrip(|key| - shared, tail);
    assert EncodeKey(last, key) + rest == Uvarint(shared) + (Uvarint(|key| - shared) + tail);
    assert tail[..|key| - shared] == key[shared..] && tail[|key| - shared..] == rest;
    assert key == key[..shared] + key[shared..];
  }

  /** A key that is cut off is an unexpected end, unless the cut is before one of its two lengths or its bytes. */
  lemma KeyCut(last: Bytes, key: Bytes, k: nat)
    requires |key| < TWO_64 && k < |EncodeKey(last, key)|
    ensures var a := |Uvarint(Shared(last, key))|; var b := a + |Uvarint(|key| - Shared(last, key))|;
      DecodeKey(last, EncodeKey(last, key)[..k]) == Err(if k in {0, a, b} then Eof else UnexpectedEof)
  {
    hide Uvarint, ReadUvarint;
    var shared := Shared(last, key);
    var x, y, tail := Uvarint(shared), Uvarint(|key| - shared), key[shared..];
    var r := x + y + tail;
    if k < |x| {
      UvarintCut(shared, k);
      assert r[..k] == x[..k];
    } else if k < |x| + |y| {
      UvarintRoundTrip(shared, y[..k - |x|]);
      UvarintCut(|key| - shared, k - |x|);
      assert r[..k] == x + y[..k - |x|];
    } else {
      var n := k - |x| - |y|;
      UvarintRoundTrip(shared, y + tail[..n]);
      UvarintRoundTrip(|key| - shared, tail[..n]);
      assert r[..k] == x + (y + tail[..n]);
    }
  }

  // ------------------------------------------------------------------ whole files

  function LastOf(last: Bytes, keys: seq<Bytes>): Bytes {
    if keys == [] then last else keys[|keys| - 1]
  }

  function EncodeAll(last: Bytes, keys: seq<Bytes>): Bytes
    decreases |keys|
  {
    if keys == [] then []
    else EncodeKey(last, keys[0]) + EncodeAll(keys[0], keys[1..])
  }

  lemma {:induction false} EncodeAppend(last: Bytes, keys: seq<Bytes>, key: Bytes)
    ensures EncodeAll(last, keys + [key]) == EncodeAll(last, keys) + EncodeKey(LastOf(last, keys), key)
    decreases |keys|
  {
    hide EncodeKey;
    if keys == [] {
      var one := [] + [key];
      assert one[0] == key && one[1..] == [];
    } else {
      EncodeAppend(keys[0], keys[1..], key);
      assert (keys + [key])[1..] == keys[1..] + [key];
      assert LastOf(keys[0], keys[1..]) == LastOf(last, keys);
    }
  }

  class DeltaEncoder {
    var last: Bytes

    constructor ()
      ensures last == []
    {
      last := [];
    }

    method Write(out: Bytes, key: Bytes) returns (r: Bytes)
      modifies this
      ensures r == out + EncodeKey(old(last), key) && last == key
    {
      var shared := DiffOffset(last, key);
      var nonShared := |key| - shared;
      r := out + (Uvarint(shared) + Uvarint(nonShared));
      r := r + key[shared..];
      last := key;
    }
  }

  /** The file of a chunk, key by key. */
  method WriteKeys(keys: seq<Bytes>) returns (file: Bytes)
    ensures file == EncodeAll([], keys)
  {
    hide EncodeAll, EncodeKey;
    var encoder := new DeltaEncoder();
    file := [];
    NoKeys([]);
    assert keys[..0] == [];
    for i := 0 to |keys|
      invariant fresh(encoder) && encoder.last == LastOf([], keys[..i]) && file == EncodeAll([], keys[..i])
    {
      EncodeAppend([], keys[..i], keys[i]);
      assert keys[..i + 1] == keys[..i] + [keys[i]];
      file := encoder.Write(file, keys[i]);
    }
    assert keys[..|keys|] == keys;
  }

  lemma NoKeys(last: Bytes)
    ensures EncodeAll(last, []) == []
  {
  }

  datatype Fetched = Item(key: Bytes) | End | Failed(error: ReadError)

  /** Reads a chunk file; it yields the keys it was written from and then ends. */
  class DeltaReader {
    var last: Bytes
    var bytes: Bytes
    ghost var keys: seq<Bytes>

    ghost predicate Valid()
      reads this
    {
      bytes == EncodeAll(last, keys) && forall i :: 0 <= i < |keys| ==> |keys[i]| < TWO_64
    }

    constructor (file: Bytes, ghost keys: seq<Bytes>)
      requires file == EncodeAll([], keys) && forall i :: 0 <= i < |keys| ==> |keys[i]| < TWO_64
      ensures Valid() && this.keys == keys
    {
      last, bytes, this.keys := [], file, keys;
    }

    /** The next key, or the end of the file; an end in the middle of a key counts as the end too. On
        a file the writer made it yields every key and never fails. */
    method Next() returns (r: Fetched)
      requires Valid()
      modifies this
      ensures Valid()
      ensures old(keys) == [] ==> r == End && keys == []
      ensures old(keys) != [] ==> r == Item(old(keys)[0]) && keys == old(keys)[1..]
    {
      hide EncodeKey, DecodeKey;
      if keys == [] {
        EndOfFile(last);
      } else {
        KeyRoundTrip(last, keys[0], EncodeAll(keys[0], keys[1..]));
      }
      match DecodeKey(last, bytes)
      case Err(e) => r := if e == Eof then End else Failed(e);
      case Ok(item, rest) => r, last, bytes, keys := Item(item), item, rest, keys[1..];
    }
  }

  lemma EndOfFile(last: Bytes)
    ensures DecodeKey(last, EncodeAll(last, [])) == Err(Eof)
  {
  }
}
