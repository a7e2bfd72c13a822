/** Variable-length and fixed-length integer encodings, and the readers that invert them. */
module Encoding {
  import opened Bytes

  const TWO_8: nat := 0x100
  const TWO_32: nat := 0x1_0000_0000
  const TWO_63: nat := 0x8000_0000_0000_0000
  const TWO_64: nat := 0x1_0000_0000_0000_0000

  /** Base 128 varint: seven bits a byte, least significant first, high bit set on all but the last. */
  function Uvarint(n: nat): (r: Bytes)
    ensures r != []
  {
    if n < 128 then [n] else [n % 128 + 128] + Uvarint(n / 128)
  }

  /** Signed integers are mapped to unsigned ones by zigzag before encoding. */
  function Zigzag(n: int): nat { if n >= 0 then 2 * n else -2 * n - 1 }

  function Varint(n: int): Bytes { Uvarint(Zigzag(n)) }

  /** A varint length followed by the bytes. */
  function LengthPrefixed(b: Bytes): Bytes { Uvarint(|b|) + b }

  datatype ReadError = Eof | UnexpectedEof | Overflow | Mismatch

  datatype Read<+T> = Ok(value: T, rest: Bytes) | Err(error: ReadError)

  /** `binary.ReadUvarint` after `i` bytes: at most ten bytes, and the tenth may only add one bit. */
  function ReadUvarintFrom(b: Bytes, i: nat): (r: Read<nat>)
    requires i <= 10
    ensures r.Ok? ==> |r.rest| < |b|
    decreases 10 - i
  {
    if i == 10 then Err(Overflow)
    else if b == [] then Err(if i > 0 then UnexpectedEof else Eof)
    else if b[0] < 128 then (if i == 9 && b[0] > 1 then Err(Overflow) else Ok(b[0], b[1..]))
    else
      match ReadUvarintFrom(b[1..], i + 1)
      case Ok(high, rest) => Ok(b[0] - 128 + 128 * high, rest)
      case Err(e) => Err(e)
  }

  function ReadUvarint(b: Bytes): Read<nat> { ReadUvarintFrom(b, 0) }

  /** What still fits in 64 bits after `i` varint bytes. */
  function Remaining(i: nat): nat
    requires i < 10
  {
    if i == 0 then TWO_64 else Remaining(i - 1) / 128
  }

  lemma RemainingStep(i: nat, n: nat)
    requires i < 9 && n < Remaining(i)
    ensures n / 128 < Remaining(i + 1)
  {
    assert Remaining(3) == 0x800_0000_0000 && Remaining(6) == 0x40_0000 && Remaining(8) == 0x100;
    assert Remaining(i) == 128 * Remaining(i + 1);
  }

  lemma RemainingLast()
    ensures Remaining(9) == 2
  {
    assert Remaining(3) == 0x800_0000_0000 && Remaining(6) == 0x40_0000;
  }

  lemma {:induction false} UvarintRoundTripFrom(n: nat, rest: Bytes, i: nat)
    requires i < 10 && n < Remaining(i)
    ensures ReadUvarintFrom(Uvarint(n) + rest, i) == Ok(n, rest)
    decreases n
  {
    var b := Uvarint(n) + rest;
    if i == 9 { RemainingLast(); }
    if n < 128 {
      assert b[1..] == rest;
    } else {
      RemainingStep(i, n);
      UvarintRoundTripFrom(n / 128, rest, i + 1);
      assert b[1..] == Uvarint(n / 128) + rest;
    }
  }

  /** Every 64-bit unsigned integer is read back, leaving what follows it. */
  lemma UvarintRoundTrip(n: nat, rest: Bytes)
    requires n < TWO_64
    ensures ReadUvarint(Uvarint(n) + rest) == Ok(n, rest)
  {
    UvarintRoundTripFrom(n, rest, 0);
  }

  lemma {:induction false} UvarintCutFrom(n: nat, k: nat, i: nat)
    requires i < 10 && n < Remaining(i) && k < |Uvarint(n)|
    ensures ReadUvarintFrom(Uvarint(n)[..k], i) == Err(if i + k > 0 then UnexpectedEof else Eof)
    decreases n
  {
    if i == 9 { RemainingLast(); }
    if k > 0 {
      RemainingStep(i, n);
      UvarintCutFrom(n / 128, k - 1, i + 1);
      assert Uvarint(n)[..k][1..] == Uvarint(n / 128)[..k - 1];
    }
  }

  /** A varint that is cut off is an unexpected end, unless nothing of it is there. */
  lemma UvarintCut(n: nat, k: nat)
    requires n < TWO_64 && k < |Uvarint(n)|
    ensures ReadUvarint(Uvarint(n)[..k]) == Err(if k > 0 then UnexpectedEof else Eof)
  {
    UvarintCutFrom(n, k, 0);
  }

  function Pow128(k: nat): (r: nat)
    ensures r > 0
  { if k == 0 then 1 else 128 * Pow128(k - 1) }

  lemma Quotient(n: nat, d: nat, q: nat, r: nat)
    requires d > 0 && r < d && n == d * q + r
    ensures n / d == q
  {
    Unique(n, d, q, r);
    assert d * (n / d - q) == 0;
    SmallMultiple(d, n / d - q);
  }

  lemma Div128(n: nat, m: nat)
    requires m > 0
    ensures n / 128 / m == n / (128 * m)
  {
    var q, r := n / 128 / m, n / 128 % m;
    assert n / 128 == m * q + r;
    assert (128 * m) * q == 128 * (m * q);
    Quotient(n, 128 * m, q, 128 * r + n % 128);
  }

  lemma Div256(n: nat, m: nat)
    requires m > 0
    ensures n / 256 / m == n / (256 * m)
  {
    var q, r := n / 256 / m, n / 256 % m;
    assert n / 256 == m * q + r;
    assert (256 * m) * q == 256 * (m * q);
    Quotient(n, 256 * m, q, 256 * r + n % 256);
  }

  /** Byte `i` of a varint holds the `i`-th seven bits, and says whether more follow. */
  lemma {:induction false} UvarintBytes(n: nat, i: nat)
    requires i < |Uvarint(n)|
    ensures Uvarint(n)[i] == n / Pow128(i) % 128 + (if i + 1 < |Uvarint(n)| then 128 else 0)
  {
    if i > 0 {
      UvarintBytes(n / 128, i - 1);
      Div128(n, Pow128(i - 1));
    }
  }

  /** The signed number that an unsigned one stands for: its last bit tells the sign. */
  function Signed(u: nat): int { if u % 2 == 0 then u / 2 else -((u + 1) / 2) }

  /** `binary.ReadVarint`. */
  function ReadVarint(b: Bytes): Read<int> {
    match ReadUvarint(b)
    case Ok(u, rest) => Ok(Signed(u), rest)
    case Err(e) => Err(e)
  }

  /** Every 64-bit signed integer is read back, leaving what follows it. */
  lemma VarintRoundTrip(n: int, rest: Bytes)
    requires -0x8000_0000_0000_0000 <= n < 0x8000_0000_0000_0000
    ensures ReadVarint(Varint(n) + rest) == Ok(n, rest)
  {
    hide Uvarint, ReadUvarint;
    UvarintRoundTrip(Zigzag(n), rest);
  }

  /** `io.ReadFull`: all bytes, or an error that tells whether any were there. */
  function ReadFull(b: Bytes, n: nat): Read<Bytes> {
    if n <= |b| then Ok(b[..n], b[n..]) else Err(if b == [] then Eof else UnexpectedEof)
  }

  function ReadPrefixed(b: Bytes): Read<Bytes> {
    match ReadUvarint(b)
    case Err(e) => Err(e)
    case Ok(n, rest) => ReadFull(rest, n)
  }

  lemma PrefixedRoundTrip(b: Bytes, rest: Bytes)
    requires |b| < TWO_64
    ensures ReadPrefixed(LengthPrefixed(b) + rest) == Ok(b, rest)
  {
    hide Uvarint, ReadUvarint;
    UvarintRoundTrip(|b|, b + rest);
    assert LengthPrefixed(b) + rest == Uvarint(|b|) + (b + rest);
    assert (b + rest)[..|b|] == b && (b + rest)[|b|..] == rest;
  }

  /** What is cut off inside a length or inside the bytes is an unexpected end, and a plain one before either. */
  lemma PrefixedCut(b: Bytes, k: nat)
    requires |b| < TWO_64 && k < |LengthPrefixed(b)|
    ensures ReadPrefixed(LengthPrefixed(b)[..k]) == Err(if k in {0, |Uvarint(|b|)|} then Eof else UnexpectedEof)
  {
    hide Uvarint, ReadUvarint;
    var n := |Uvarint(|b|)|;
    if k < n {
      UvarintCut(|b|, k);
      assert LengthPrefixed(b)[..k] == Uvarint(|b|)[..k];
    } else {
      UvarintRoundTrip(|b|, b[..k - n]);
      assert LengthPrefixed(b)[..k] == Uvarint(|b|) + b[..k - n];
    }
  }

  function BitLength(n: nat): nat { if n == 0 then 0 else 1 + BitLength(n / 2) }

  /** The closed form used to size buffers before encoding. */
  function UvarintSize(n: nat): nat {
    var b := BitLength(n);
    if b % 7 > 0 || b / 7 == 0 then b / 7 + 1 else b / 7
  }

  lemma SevenBits(n: nat)
    requires n >= 128
    ensures BitLength(n) == 7 + BitLength(n / 128)
  {
    assert BitLength(n) == 1 + BitLength(n / 2);
    assert n / 2 / 2 == n / 4 && BitLength(n / 2) == 1 + BitLength(n / 4);
    assert n / 4 / 2 == n / 8 && BitLength(n / 4) == 1 + BitLength(n / 8);
    assert n / 8 / 2 == n / 16 && BitLength(n / 8) == 1 + BitLength(n / 16);
    assert n / 16 / 2 == n / 32 && BitLength(n / 16) == 1 + BitLength(n / 32);
    assert n / 32 / 2 == n / 64 && BitLength(n / 32) == 1 + BitLength(n / 64);
    assert n / 64 / 2 == n / 128 && BitLength(n / 64) == 1 + BitLength(n / 128);
  }

  lemma FewBits(n: nat)
    requires n < 128
    ensures BitLength(n) <= 7
  {
    assert BitLength(n / 64) <= 1;
    assert n / 32 / 2 == n / 64 && BitLength(n / 32) <= 2;
    assert n / 16 / 2 == n / 32 && BitLength(n / 16) <= 3;
    assert n / 8 / 2 == n / 16 && BitLength(n / 8) <= 4;
    assert n / 4 / 2 == n / 8 && BitLength(n / 4) <= 5;
    assert n / 2 / 2 == n / 4 && BitLength(n / 2) <= 6;
  }

  /** The closed form is the length actually written. */
  lemma {:induction false} UvarintSizeExact(n: nat)
    ensures UvarintSize(n) == |Uvarint(n)|
  {
    if n < 128 {
      FewBits(n);
    } else {
      SevenBits(n);
      UvarintSizeExact(n / 128);
    }
  }

  /** `k` bytes, least significant first; higher bits are dropped. */
  function LittleEndian(n: nat, k: nat): (r: Bytes)
    ensures |r| == k
  {
    if k == 0 then [] else [n % 256] + LittleEndian(n / 256, k - 1)
  }

  function FromLittleEndian(b: Bytes): nat {
    if b == [] then 0 else b[0] + 256 * FromLittleEndian(b[1..])
  }

  function Pow256(k: nat): (r: nat)
    ensures r > 0
  { if k == 0 then 1 else 256 * Pow256(k - 1) }

  lemma {:induction false} LittleEndianRoundTrip(n: nat, k: nat)
    ensures FromLittleEndian(LittleEndian(n, k)) == n % Pow256(k)
  {
    if k > 0 {
      LittleEndianRoundTrip(n / 256, k - 1);
      assert LittleEndian(n, k)[1..] == LittleEndian(n / 256, k - 1);
      ModSplit(n, Pow256(k - 1));
    }
  }

  /** Byte `i` of a fixed-length integer holds its `i`-th eight bits. */
  lemma {:induction false} LittleEndianBytes(n: nat, k: nat, i: nat)
    requires i < k
    ensures LittleEndian(n, k)[i] == n / Pow256(i) % 256
  {
    if i > 0 {
      LittleEndianBytes(n / 256, k - 1, i - 1);
      Div256(n, Pow256(i - 1));
    }
  }

  lemma {:induction false} LittleEndianInverse(b: Bytes)
    ensures LittleEndian(FromLittleEndian(b), |b|) == b && FromLittleEndian(b) < Pow256(|b|)
  {
    if b != [] {
      LittleEndianInverse(b[1..]);
      assert b == [b[0]] + b[1..];
    }
  }

  /** From an offset on, the bytes of a number, least significant first. */
  predicate NumberAt(b: Bytes, offset: nat, k: nat, n: nat) {
    offset + k <= |b| && forall i :: 0 <= i < k ==> b[offset + i] == n / Pow256(i) % 256
  }

  lemma EncodedNumber(b: Bytes, offset: nat, k: nat, n: nat)
    requires offset + k <= |b| && b[offset..offset + k] == LittleEndian(n, k)
    ensures NumberAt(b, offset, k, n)
  {
    forall i | 0 <= i < k ensures b[offset + i] == n / Pow256(i) % 256 {
      LittleEndianBytes(n, k, i);
      assert b[offset..offset + k][i] == b[offset + i];
    }
  }

  lemma ModSplit(n: nat, m: nat)
    requires m > 0
    ensures n % 256 + 256 * (n / 256 % m) == n % (256 * m)
  {
    var q := n / 256 / m;
    var r := n / 256 % m;
    assert n == 256 * (q * m + r) + n % 256;
    assert n == (256 * m) * q + (256 * r + n % 256);
    Unique(n, 256 * m, q, 256 * r + n % 256);
  }

  lemma Unique(n: nat, d: nat, q: nat, r: nat)
    requires d > 0 && r < d && n == d * q + r
    ensures n % d == r
  {
    var k := n / d;
    assert d * (k - q) == r - n % d;
    SmallMultiple(d, k - q);
  }

  lemma SmallMultiple(d: int, x: int)
    requires -d < d * x < d
    ensures x == 0
  {
    assert x >= 1 ==> d * x >= d;
    assert x <= -1 ==> d * x <= -d;
  }

  lemma Widths()
    ensures Pow256(4) == TWO_32 && Pow256(8) == TWO_64
  {
  }

  lemma RoundTrip32(n: nat)
    requires n < TWO_32
    ensures FromLittleEndian(LittleEndian(n, 4)) == n
  {
    LittleEndianRoundTrip(n, 4);
    Widths();
  }

  lemma RoundTrip64(n: nat)
    requires n < TWO_64
    ensures FromLittleEndian(LittleEndian(n, 8)) == n
  {
    LittleEndianRoundTrip(n, 8);
    Widths();
  }
}
