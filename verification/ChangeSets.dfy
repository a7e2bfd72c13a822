/** Change-set files: versions of key-value changes, written in sequence, and the two readers of them. */
module ChangeSets {
  import opened Bytes
  import opened Encoding
  import opened Exporting

  /** A change to one key; a deletion carries no value in the file. */
  datatype KvPair = KvPair(delete: bool, key: Bytes, value: Option<Bytes>)

  datatype Version = Version(version: int, pairs: seq<KvPair>)

  /** What reading a pair gives: no value for a deletion, and an empty one where none was set. */
  function AsRead(p: KvPair): KvPair {
    if p.delete then p.(value := None) else p.(value := Some(ValueBytes(p)))
  }

  function ValueBytes(p: KvPair): Bytes { if p.value.None? then [] else p.value.value }

  // ------------------------------------------------------------------ one pair

  function EncodedSize(p: KvPair): nat {
    var size := 1 + UvarintSize(|p.key|) + |p.key|;
    if p.delete then size else size + UvarintSize(|ValueBytes(p)|) + |ValueBytes(p)|
  }

  function EncodePair(p: KvPair): Bytes {
    if p.delete then [1] + LengthPrefixed(p.key)
    else [0] + LengthPrefixed(p.key) + LengthPrefixed(ValueBytes(p))
  }

  /** A flag byte, one for a deletion, then the length and the bytes of the key, and of the value if there is one. */
  lemma PairLayout(p: KvPair)
    ensures var b, k := EncodePair(p), |Uvarint(|p.key|)|; var end := 1 + k + |p.key|;
      && end <= |b| && b[0] == (if p.delete then 1 else 0)
      && b[1..1 + k] == Uvarint(|p.key|) && b[1 + k..end] == p.key
      && b[end..] == if p.delete then [] else Uvarint(|ValueBytes(p)|) + ValueBytes(p)
  {
    hide Uvarint;
    var n, v := Uvarint(|p.key|), if p.delete then [] else Uvarint(|ValueBytes(p)|) + ValueBytes(p);
    var b := [if p.delete then 1 else 0] + (n + p.key) + v;
    assert EncodePair(p) == b;
    assert b[1..1 + |n|] == n && b[1 + |n|..1 + |n| + |p.key|] == p.key && b[1 + |n| + |p.key|..] == v;
  }

  predicate PairFits(p: KvPair) { |p.key| < TWO_64 && |ValueBytes(p)| < TWO_64 }

  /** The buffer made for a pair is filled exactly. */
  lemma SizeIsExact(p: KvPair)
    requires PairFits(p)
    ensures |EncodePair(p)| == EncodedSize(p)
  {
    hide Uvarint, UvarintSize;
    UvarintSizeExact(|p.key|);
    UvarintSizeExact(|ValueBytes(p)|);
  }

  lemma SizeAsRead(p: KvPair)
    ensures EncodedSize(AsRead(p)) == EncodedSize(p)
  {
    hide UvarintSize;
  }

  function ReadPair(b: Bytes): (r: Read<KvPair>)
    ensures r.Ok? ==> |r.rest| < |b|
  {
    if b == [] then Err(Eof)
    else
      match ReadPrefixed(b[1..])
      case Err(e) => Err(e)
      case Ok(key, rest) =>
        if b[0] == 1 then Ok(KvPair(true, key, None), rest)
        else
          match ReadPrefixed(rest)
          case Err(e) => Err(e)
          case Ok(value, tail) => Ok(KvPair(false, key, Some(value)), tail)
  }

  lemma PairRoundTrip(p: KvPair, rest: Bytes)
    requires PairFits(p)
    ensures ReadPair(EncodePair(p) + rest) == Ok(AsRead(p), rest)
  {
    hide LengthPrefixed, ReadPrefixed;
    var b := EncodePair(p) + rest;
    if p.delete {
      assert b[1..] == LengthPrefixed(p.key) + rest;
      PrefixedRoundTrip(p.key, rest);
    } else {
      var tail := LengthPrefixed(ValueBytes(p)) + rest;
      assert b[1..] == LengthPrefixed(p.key) + tail;
      PrefixedRoundTrip(p.key, tail);
      PrefixedRoundTrip(ValueBytes(p), rest);
    }
  }

  // ------------------------------------------------------------------ one version

  function EncodePairs(pairs: seq<KvPair>): Bytes {
    if pairs == [] then [] else EncodePairs(pairs[..|pairs| - 1]) + EncodePair(pairs[|pairs| - 1])
  }

  /** A signed 64-bit number as the unsigned one of the same bits. */
  function Uint64(x: int): nat { if x >= 0 then x else if x + TWO_64 >= 0 then x + TWO_64 else 0 }

  function EncodeVersion(v: Version): Bytes {
    LittleEndian(Uint64(v.version), 8) + LittleEndian(|EncodePairs(v.pairs)|, 8) + EncodePairs(v.pairs)
  }

  /** The version and the length of the payload, eight bytes each, then the payload. */
  lemma VersionLayout(v: Version)
    ensures var b, payload := EncodeVersion(v), EncodePairs(v.pairs);
      NumberAt(b, 0, 8, Uint64(v.version)) && NumberAt(b, 8, 8, |payload|) && b[16..] == payload
  {
    hide LittleEndian, EncodePairs, NumberAt;
    var x, y := LittleEndian(Uint64(v.version), 8), LittleEndian(|EncodePairs(v.pairs)|, 8);
    var b := x + y + EncodePairs(v.pairs);
    assert b[0..8] == x && b[8..16] == y && b[16..] == EncodePairs(v.pairs);
    EncodedNumber(b, 0, 8, Uint64(v.version));
    EncodedNumber(b, 8, 8, |EncodePairs(v.pairs)|);
  }

  predicate Fits(v: Version) {
    && -0x8000_0000_0000_0000 <= v.version < 0x8000_0000_0000_0000
    && |EncodePairs(v.pairs)| < 0x8000_0000_0000_0000
    && forall i :: 0 <= i < |v.pairs| ==> PairFits(v.pairs[i])
  }

  /** Encodes the pairs one by one, then writes the header and the payload. */
  method WriteChangeSet(out: Bytes, v: Version) returns (r: Bytes)
    requires Fits(v)
    ensures r == out + EncodeVersion(v)
  {
    hide EncodePair;
    var payload, size := [], 0;
    assert v.pairs[..0] == [];
    for i := 0 to |v.pairs|
      invariant payload == EncodePairs(v.pairs[..i]) && size == |payload|
    {
      assert v.pairs[..i + 1][..i] == v.pairs[..i];
      var buf := EncodePair(v.pairs[i]);
      size := size + |buf|;
      payload := payload + buf;
    }
    assert v.pairs[..|v.pairs|] == v.pairs;
    r := out + (LittleEndian(Uint64(v.version), 8) + LittleEndian(size, 8));
    r := r + payload;
  }

  /** One version read: the version, the bytes it took, and its pairs when they are parsed. */
  datatype Block = Block(version: int, bytes: int, pairs: seq<KvPair>)

  /** Pairs until the payload is used up, starting at an offset in it. */
  function ReadPairs(b: Bytes, offset: int, size: int): Read<seq<KvPair>>
    decreases |b|
  {
    if offset >= size then (if offset == size then Ok([], b) else Err(Mismatch))
    else
      match ReadPair(b)
      case Err(e) => Err(e)
      case Ok(p, rest) =>
        match ReadPairs(rest, offset + EncodedSize(p), size)
        case Err(e) => Err(e)
        case Ok(ps, tail) => Ok([p] + ps, tail)
  }

  /** Skipping copies exactly the payload away; a negative size copies nothing. */
  function Skip(b: Bytes, size: int): Read<seq<KvPair>> {
    if size <= 0 then Ok([], b) else if size <= |b| then Ok([], b[size..]) else Err(Eof)
  }

  function ReadBlock(b: Bytes, parse: bool): (r: Read<Block>)
    ensures r.Ok? ==> |r.rest| < |b|
  {
    match ReadFull(b, 16)
    case Err(e) => Err(e)
    case Ok(header, rest) =>
      var version := Int64(FromLittleEndian(header[..8]));
      var size := Int64(FromLittleEndian(header[8..]));
      if size == 0 then Ok(Block(version, 16, []), rest)
      else
        match (if parse then ReadPairsShrink(rest, size) else Skip(rest, size))
        case Err(e) => Err(e)
        case Ok(pairs, tail) => Ok(Block(version, size + 16, pairs), tail)
  }

  function ReadPairsShrink(b: Bytes, size: int): (r: Read<seq<KvPair>>)
    ensures r.Ok? ==> |r.rest| <= |b|
  {
    Shrinks(b, 0, size);
    ReadPairs(b, 0, size)
  }

  lemma {:induction false} Shrinks(b: Bytes, offset: int, size: int)
    ensures ReadPairs(b, offset, size).Ok? ==> |ReadPairs(b, offset, size).rest| <= |b|
    decreases |b|
  {
    hide ReadPair, EncodedSize;
    if offset < size {
      var r := ReadPair(b);
      ReadShrinks(b);
      if r.Ok? { Shrinks(r.rest, offset + EncodedSize(r.value), size); }
    }
  }

  lemma ReadShrinks(b: Bytes)
    ensures ReadPair(b).Ok? ==> |ReadPair(b).rest| < |b|
  {
  }

  /** Reads one version, parsing its pairs or skipping them. */
  method ReadChangeSet(b: Bytes, parse: bool) returns (r: Read<Block>)
    ensures r == ReadBlock(b, parse)
  {
    hide ReadPair, EncodedSize, FromLittleEndian;
    var header := ReadFull(b, 16);
    if header.Err? { return Err(header.error); }
    var version := Int64(FromLittleEndian(header.value[..8]));
    var size := Int64(FromLittleEndian(header.value[8..]));
    var rest := header.rest;
    if size == 0 { return Ok(Block(version, 16, []), rest); }
    if !parse {
      var skipped := Skip(rest, size);
      if skipped.Err? { return Err(skipped.error); }
      return Ok(Block(version, size + 16, []), skipped.rest);
    }
    var pairs, offset := [], 0;
    ghost var all := ReadPairs(rest, 0, size);
    PrependNone(all);
    while offset < size
      invariant all == Prepend(pairs, ReadPairs(rest, offset, size))
      decreases |rest|
    {
      ReadShrinks(rest);
      var p := ReadPair(rest);
      if p.Err? { return Err(p.error); }
      offset := offset + EncodedSize(p.value);
      pairs, rest := pairs + [p.value], p.rest;
      Prepends(pairs[..|pairs| - 1], p.value, ReadPairs(rest, offset, size));
    }
    if offset != size { return Err(Mismatch); }
    assert pairs + [] == pairs;
    return Ok(Block(version, size + 16, pairs), rest);
  }

  ghost function Prepend(before: seq<KvPair>, r: Read<seq<KvPair>>): Read<seq<KvPair>> {
    match r case Err(e) => Err(e) case Ok(ps, rest) => Ok(before + ps, rest)
  }

  lemma PrependNone(r: Read<seq<KvPair>>)
    ensures Prepend([], r) == r
  {
    if r.Ok? { assert [] + r.value == r.value; }
  }

  lemma Prepends(before: seq<KvPair>, p: KvPair, r: Read<seq<KvPair>>)
    ensures Prepend(before, Prepend([p], r)) == Prepend(before + [p], r)
  {
    if r.Ok? { assert before + ([p] + r.value) == before + [p] + r.value; }
  }

  function AllAsRead(pairs: seq<KvPair>): seq<KvPair> {
    if pairs == [] then [] else [AsRead(pairs[0])] + AllAsRead(pairs[1..])
  }

  lemma {:induction false} EncodePairsFront(pairs: seq<KvPair>)
    requires pairs != []
    ensures EncodePairs(pairs) == EncodePair(pairs[0]) + EncodePairs(pairs[1..])
  {
    hide EncodePair;
    var n := |pairs| - 1;
    if n == 0 {
      assert pairs[..0] == [] && pairs[1..] == [];
    } else {
      EncodePairsFront(pairs[..n]);
      assert pairs[..n][1..] == pairs[1..][..n - 1] && pairs[1..][n - 1] == pairs[n];
    }
  }

  lemma {:induction false} PairsRoundTrip(pairs: seq<KvPair>, offset: int, size: int, rest: Bytes)
    requires forall i :: 0 <= i < |pairs| ==> PairFits(pairs[i])
    requires size == offset + |EncodePairs(pairs)|
    ensures ReadPairs(EncodePairs(pairs) + rest, offset, size) == Ok(AllAsRead(pairs), rest)
    decreases |pairs|
  {
    hide EncodePair, ReadPair, EncodedSize, AsRead;
    if pairs == [] {
      assert EncodePairs(pairs) + rest == rest;
    } else {
      var p, ps := pairs[0], pairs[1..];
      EncodePairsFront(pairs);
      SizeIsExact(p);
      SizeAsRead(p);
      SizePositive(p);
      PairRoundTrip(p, EncodePairs(ps) + rest);
      assert EncodePairs(pairs) + rest == EncodePair(p) + (EncodePairs(ps) + rest);
      PairsRoundTrip(ps, offset + EncodedSize(p), size, rest);
    }
  }

  lemma SizePositive(p: KvPair)
    ensures EncodedSize(p) > 0
  {
    hide UvarintSize;
  }

  lemma HeaderRoundTrip(v: Version, rest: Bytes)
    requires Fits(v)
    ensures var b := EncodeVersion(v) + rest;
      && ReadFull(b, 16).Ok? && ReadFull(b, 16).rest == EncodePairs(v.pairs) + rest
      && Int64(FromLittleEndian(ReadFull(b, 16).value[..8])) == v.version
      && Int64(FromLittleEndian(ReadFull(b, 16).value[8..])) == |EncodePairs(v.pairs)|
  {
    hide LittleEndian, FromLittleEndian, EncodePairs;
    var payload := EncodePairs(v.pairs);
    var x, y := LittleEndian(Uint64(v.version), 8), LittleEndian(|payload|, 8);
    var b := x + y + payload + rest;
    assert b[..16] == x + y && (x + y)[..8] == x && (x + y)[8..] == y;
    assert b[16..] == payload + rest;
    RoundTrip64(Uint64(v.version));
    RoundTrip64(|payload|);
  }

  /** A written version is read back with its pairs, or skipped over the same bytes. */
  lemma VersionRoundTrip(v: Version, rest: Bytes, parse: bool)
    requires Fits(v)
    ensures ReadBlock(EncodeVersion(v) + rest, parse)
         == Ok(Block(v.version, |EncodeVersion(v)|, if parse then AllAsRead(v.pairs) else []), rest)
  {
    hide LittleEndian, FromLittleEndian, EncodePairs, ReadPairs, ReadFull, AllAsRead;
    HeaderRoundTrip(v, rest);
    PairsRoundTrip(v.pairs, 0, |EncodePairs(v.pairs)|, rest);
    EmptyPayload(v.pairs, rest);
    var payload := EncodePairs(v.pairs);
    assert (payload + rest)[|payload|..] == rest;
  }

  lemma EmptyPayload(pairs: seq<KvPair>, rest: Bytes)
    requires forall i :: 0 <= i < |pairs| ==> PairFits(pairs[i])
    ensures |EncodePairs(pairs)| == 0 <==> pairs == []
    ensures |EncodePairs(pairs)| == 0 ==> AllAsRead(pairs) == [] && EncodePairs(pairs) + rest == rest
  {
    hide EncodePair;
    if pairs != [] {
      SizeIsExact(pairs[|pairs| - 1]);
      SizePositive(pairs[|pairs| - 1]);
    }
  }

  // ------------------------------------------------------------------ whole files

  function EncodeFile(versions: seq<Version>): Bytes {
    if versions == [] then [] else EncodeVersion(versions[0]) + EncodeFile(versions[1..])
  }

  /** What a walk over a file saw, up to which offset, and the error it ended with (none at the end). */
  datatype Walk = Walk(blocks: seq<Block>, offset: int, error: Option<ReadError>)

  function WalkFile(b: Bytes, parse: bool): Walk
    decreases |b|
  {
    match ReadBlock(b, parse)
    case Err(e) => Walk([], 0, if e == Eof then None else Some(e))
    case Ok(block, rest) =>
      var w := WalkFile(rest, parse);
      Walk([block] + w.blocks, block.bytes + w.offset, w.error)
  }

  /** The loop of both iterators; they differ only in whether they parse. */
  method Iterate(b: Bytes, parse: bool) returns (w: Walk)
    ensures w == WalkFile(b, parse)
  {
    hide ReadBlock;
    var blocks, lastCompleteOffset, rest := [], 0, b;
    ghost var all := WalkFile(b, parse);
    while true
      invariant all == Seen(blocks, lastCompleteOffset, WalkFile(rest, parse))
      decreases |rest|
    {
      BlockShrinks(rest, parse);
      var r := ReadChangeSet(rest, parse);
      if r.Err? {
        return Walk(blocks, lastCompleteOffset, if r.error == Eof then None else Some(r.error));
      }
      ghost var later := WalkFile(r.rest, parse).blocks;
      assert blocks + ([r.value] + later) == blocks + [r.value] + later;
      blocks := blocks + [r.value];
      lastCompleteOffset := lastCompleteOffset + r.value.bytes;
      rest := r.rest;
    }
  }

  ghost function Seen(blocks: seq<Block>, offset: int, w: Walk): Walk {
    Walk(blocks + w.blocks, offset + w.offset, w.error)
  }

  lemma BlockShrinks(b: Bytes, parse: bool)
    ensures ReadBlock(b, parse).Ok? ==> |ReadBlock(b, parse).rest| < |b|
  {
  }

  function BlocksOf(versions: seq<Version>, parse: bool): (r: seq<Block>)
    ensures |r| == |versions|
    ensures forall i :: 0 <= i < |r| ==> r[i] == Block(versions[i].version, |EncodeVersion(versions[i])|,
      if parse then AllAsRead(versions[i].pairs) else [])
  {
    if versions == [] then []
    else
      [Block(versions[0].version, |EncodeVersion(versions[0])|, if parse then AllAsRead(versions[0].pairs) else [])]
      + BlocksOf(versions[1..], parse)
  }

  /** Reading a written file gives back every version with its pairs, without error, to its last byte;
      skipping visits the same versions at the same offsets. */
  lemma {:induction false} FileRoundTrip(versions: seq<Version>, parse: bool)
    requires forall i :: 0 <= i < |versions| ==> Fits(versions[i])
    ensures WalkFile(EncodeFile(versions), parse) == Walk(BlocksOf(versions, parse), |EncodeFile(versions)|, None)
    decreases |versions|
  {
    hide ReadBlock, EncodeVersion, AllAsRead;
    if versions == [] {
      NothingToRead(parse);
    } else {
      FileRoundTrip(versions[1..], parse);
      VersionRoundTrip(versions[0], EncodeFile(versions[1..]), parse);
    }
  }

  lemma NothingToRead(parse: bool)
    ensures ReadBlock([], parse) == Err(Eof)
  {
  }

  // ------------------------------------------------------------------ files that are cut off

  /** The places in a pair at which a cut reads as a plain end of file: before its flag, lengths and bytes. */
  function Seams(p: KvPair): set<nat> {
    var k := 1 + |Uvarint(|p.key|)|;
    var end := k + |p.key|;
    {0, 1, k} + if p.delete then {} else {end, end + |Uvarint(|ValueBytes(p)|)|}
  }

  lemma CutPair(p: KvPair, k: nat)
    requires PairFits(p) && k < |EncodePair(p)|
    ensures ReadPair(EncodePair(p)[..k]) == Err(if k in Seams(p) then Eof else UnexpectedEof)
  {
    hide LengthPrefixed, ReadPrefixed;
    var b, key := EncodePair(p)[..k], LengthPrefixed(p.key);
    var value := if p.delete then [] else LengthPrefixed(ValueBytes(p));
    var flag := if p.delete then 1 else 0;
    Prefixed(p.key);
    assert EncodePair(p) == [flag] + (key + value);
    if 0 < k <= |key| {
      assert b == [flag] + key[..k - 1];
      PrefixedCut(p.key, k - 1);
    } else if k > |key| {
      assert b == [flag] + (key + value[..k - 1 - |key|]);
      Prefixed(ValueBytes(p));
      PrefixedRoundTrip(p.key, value[..k - 1 - |key|]);
      PrefixedCut(ValueBytes(p), k - 1 - |key|);
    }
  }

  lemma Prefixed(b: Bytes)
    ensures |LengthPrefixed(b)| == |Uvarint(|b|)| + |b|
  {
  }

  /** Whether a cut falls on a seam of one of the pairs. */
  predicate SilentIn(pairs: seq<KvPair>, k: nat) {
    pairs != [] &&
      if k < |EncodePair(pairs[0])| then k in Seams(pairs[0]) else SilentIn(pairs[1..], k - |EncodePair(pairs[0])|)
  }

  lemma {:induction false} CutPairs(pairs: seq<KvPair>, k: nat, offset: int, size: int)
    requires forall i :: 0 <= i < |pairs| ==> PairFits(pairs[i])
    requires k < |EncodePairs(pairs)| && size == offset + |EncodePairs(pairs)|
    ensures ReadPairs(EncodePairs(pairs)[..k], offset, size)
         == Err(if SilentIn(pairs, k) then Eof else UnexpectedEof)
    decreases |pairs|
  {
    hide EncodePair, ReadPair, EncodedSize, AsRead, Seams;
    var p, ps := pairs[0], pairs[1..];
    var n := |EncodePair(p)|;
    EncodePairsFront(pairs);
    SizeIsExact(p);
    SizeAsRead(p);
    if k < n {
      CutPair(p, k);
      assert EncodePairs(pairs)[..k] == EncodePair(p)[..k];
    } else {
      PairRoundTrip(p, EncodePairs(ps)[..k - n]);
      assert EncodePairs(pairs)[..k] == EncodePair(p) + EncodePairs(ps)[..k - n];
      CutPairs(ps, k - n, offset + n, size);
    }
  }

  /** Whether a version that is cut off reads as a plain end: a cut before it, or behind its header when the payload
      is skipped, or on a seam of it. */
  predicate Silent(v: Version, parse: bool, k: nat) {
    k == 0 || (k >= 16 && (parse ==> SilentIn(v.pairs, k - 16)))
  }

  lemma CutVersion(v: Version, parse: bool, k: nat)
    requires Fits(v) && k < |EncodeVersion(v)|
    ensures ReadBlock(EncodeVersion(v)[..k], parse) == Err(if Silent(v, parse, k) then Eof else UnexpectedEof)
  {
    hide LittleEndian, FromLittleEndian, EncodePairs, ReadPairs, SilentIn;
    if k >= 16 {
      var payload, b := EncodePairs(v.pairs), EncodeVersion(v);
      HeaderRoundTrip(v, []);
      assert b + [] == b && b[..k][..16] == b[..16] && b[..k][16..] == payload[..k - 16];
      CutPairs(v.pairs, k - 16, 0, |payload|);
    }
  }

  /** How many versions are whole in the first bytes of a file. */
  function Whole(versions: seq<Version>, k: nat): (n: nat)
    ensures n <= |versions|
  {
    if versions == [] || k < |EncodeVersion(versions[0])| then 0
    else 1 + Whole(versions[1..], k - |EncodeVersion(versions[0])|)
  }

  lemma FileStarts(versions: seq<Version>, parse: bool, k: nat)
    requires versions != [] && Fits(versions[0]) && |EncodeVersion(versions[0])| <= k <= |EncodeFile(versions)|
    ensures var v, vs, m := versions[0], versions[1..], |EncodeVersion(versions[0])|;
      k - m <= |EncodeFile(vs)| && var w := WalkFile(EncodeFile(vs)[..k - m], parse);
      WalkFile(EncodeFile(versions)[..k], parse)
        == Walk([Block(v.version, m, if parse then AllAsRead(v.pairs) else [])] + w.blocks, m + w.offset, w.error)
  {
    hide ReadBlock, EncodeVersion, AllAsRead;
    var v, vs, m := versions[0], versions[1..], |EncodeVersion(versions[0])|;
    VersionRoundTrip(v, EncodeFile(vs)[..k - m], parse);
    assert EncodeFile(versions)[..k] == EncodeVersion(v) + EncodeFile(vs)[..k - m];
  }

  lemma Front(versions: seq<Version>, parse: bool, n: nat)
    requires 1 <= n <= |versions|
    ensures var v, vs := versions[0], versions[1..];
      && EncodeFile(versions[..n]) == EncodeVersion(v) + EncodeFile(vs[..n - 1])
      && BlocksOf(versions[..n], parse)
        == [Block(v.version, |EncodeVersion(v)|, if parse then AllAsRead(v.pairs) else [])]
           + BlocksOf(vs[..n - 1], parse)
  {
    hide EncodeVersion, AllAsRead;
    assert versions[..n][0] == versions[0] && versions[..n][1..] == versions[1..][..n - 1];
  }

  /** What a walk over the first bytes of a file sees. */
  ghost predicate SeesWhole(versions: seq<Version>, parse: bool, k: nat, w: Walk) {
    var n := Whole(versions, k);
    && w.blocks == BlocksOf(versions[..n], parse) && w.offset == |EncodeFile(versions[..n])| <= k
    && w.error == if n == |versions| || Silent(versions[n], parse, k - w.offset) then None else Some(UnexpectedEof)
  }

  lemma SeesNone(versions: seq<Version>, parse: bool, k: nat)
    requires (forall i :: 0 <= i < |versions| ==> Fits(versions[i])) && k <= |EncodeFile(versions)|
    requires versions == [] || k < |EncodeVersion(versions[0])|
    ensures SeesWhole(versions, parse, k, WalkFile(EncodeFile(versions)[..k], parse))
  {
    hide ReadBlock, EncodeVersion, AllAsRead, Silent;
    assert versions[..0] == [];
    if versions == [] {
      NothingToRead(parse);
    } else {
      CutVersion(versions[0], parse, k);
      assert EncodeFile(versions)[..k] == EncodeVersion(versions[0])[..k];
    }
  }

  lemma SeesOneMore(versions: seq<Version>, parse: bool, k: nat, w: Walk)
    requires versions != [] && Fits(versions[0]) && |EncodeVersion(versions[0])| <= k
    requires SeesWhole(versions[1..], parse, k - |EncodeVersion(versions[0])|, w)
    ensures var v, m := versions[0], |EncodeVersion(versions[0])|;
      SeesWhole(versions, parse, k,
        Walk([Block(v.version, m, if parse then AllAsRead(v.pairs) else [])] + w.blocks, m + w.offset, w.error))
  {
    hide EncodeVersion, AllAsRead, Silent, EncodeFile, BlocksOf;
    var n := Whole(versions[1..], k - |EncodeVersion(versions[0])|);
    Front(versions, parse, n + 1);
    assert n < |versions| - 1 ==> versions[n + 1] == versions[1..][n];
  }

  /** A file cut off anywhere: both iterators see exactly the versions that are whole, and end at the offset behind
      the last of them, to which the file can be cut back. What is left over is reported exactly unless the cut is
      at the end of a version, or on a seam of the next. */
  lemma {:induction false} FileCutOff(versions: seq<Version>, parse: bool, k: nat)
    requires (forall i :: 0 <= i < |versions| ==> Fits(versions[i])) && k <= |EncodeFile(versions)|
    ensures SeesWhole(versions, parse, k, WalkFile(EncodeFile(versions)[..k], parse))
    decreases |versions|
  {
    hide EncodeVersion, AllAsRead, SeesWhole, WalkFile, EncodeFile, Fits;
    if versions == [] || k < |EncodeVersion(versions[0])| {
      SeesNone(versions, parse, k);
    } else {
      var m := |EncodeVersion(versions[0])|;
      FileStarts(versions, parse, k);
      FileCutOff(versions[1..], parse, k - m);
      SeesOneMore(versions, parse, k, WalkFile(EncodeFile(versions[1..])[..k - m], parse));
    }
  }
}
