/** Byte strings and their lexicographic order, and what every module needs of options and numbers. */
module Bytes {

  type byte = x: int | 0 <= x < 256

  type Bytes = seq<byte>

  datatype Option<+T> = None | Some(value: T)

  function Min(a: nat, b: nat): nat { if a < b then a else b }

  function Max(a: nat, b: nat): nat { if a < b then b else a }

  /** `bytes.Compare(a, b) == -1`. */
  predicate Less(a: Bytes, b: Bytes) {
    b != [] && (a == [] || a[0] < b[0] || (a[0] == b[0] && Less(a[1..], b[1..])))
  }

  /** `bytes.Compare(a, b) <= 0`. */
  predicate AtMost(a: Bytes, b: Bytes) {
    a == b || Less(a, b)
  }

  /** `bytes.Compare`. */
  function Compare(a: Bytes, b: Bytes): (r: int)
    ensures -1 <= r <= 1
  {
    if a == b then 0 else if Less(a, b) then -1 else 1
  }

  lemma {:induction false} LessIrreflexive(a: Bytes)
    ensures !Less(a, a)
  {
    if a != [] { LessIrreflexive(a[1..]); }
  }

  lemma {:induction false} LessTransitive(a: Bytes, b: Bytes, c: Bytes)
    requires Less(a, b) && Less(b, c)
    ensures Less(a, c)
  {
    if a != [] && a[0] == b[0] == c[0] { LessTransitive(a[1..], b[1..], c[1..]); }
  }

  lemma {:induction false} LessTotal(a: Bytes, b: Bytes)
    ensures a == b || Less(a, b) || Less(b, a)
  {
    if a != [] && b != [] && a[0] == b[0] {
      LessTotal(a[1..], b[1..]);
      assert a == [a[0]] + a[1..] && b == [b[0]] + b[1..];
    }
  }

  /** The strings agree up to a place at which the first ends, or has the smaller byte. */
  predicate DiffersAt(a: Bytes, b: Bytes, i: nat) {
    i <= |a| && i < |b| && a[..i] == b[..i] && (i == |a| || a[i] < b[i])
  }

  /** The order is decided at the first difference. */
  lemma {:induction false} LessAtDifference(a: Bytes, b: Bytes)
    ensures Less(a, b) <==> exists i: nat :: DiffersAt(a, b, i)
  {
    if a == [] || b == [] || a[0] != b[0] {
      assert Less(a, b) ==> DiffersAt(a, b, 0);
      forall i: nat | DiffersAt(a, b, i) ensures Less(a, b) { AgreeAtFirst(a, b, i); }
    } else {
      LessAtDifference(a[1..], b[1..]);
      assert a == [a[0]] + a[1..] && b == [b[0]] + b[1..];
      forall i: nat | i >= 1 ensures DiffersAt(a, b, i) <==> DiffersAt(a[1..], b[1..], i - 1) {
        DiffersLater(a, b, i);
      }
      if Less(a, b) {
        var i: nat :| DiffersAt(a[1..], b[1..], i);
        assert DiffersAt(a, b, i + 1);
      }
    }
  }

  lemma AgreeAtFirst(a: Bytes, b: Bytes, i: nat)
    requires DiffersAt(a, b, i)
    ensures i > 0 ==> a[0] == b[0]
  {
    if i > 0 { assert a[..i][0] == b[..i][0]; }
  }

  lemma DiffersLater(a: Bytes, b: Bytes, i: nat)
    requires a != [] && b != [] && a[0] == b[0] && i >= 1
    ensures DiffersAt(a, b, i) <==> DiffersAt(a[1..], b[1..], i - 1)
  {
    if i <= |a| && i <= |b| {
      assert a[..i] == [a[0]] + a[1..][..i - 1] && b[..i] == [b[0]] + b[1..][..i - 1];
    }
  }

  /** Lexicographic order is a strict total order. */
  lemma LessOrder()
    ensures forall a: Bytes :: !Less(a, a)
    ensures forall a, b, c :: Less(a, b) && Less(b, c) ==> Less(a, c)
    ensures forall a, b :: Less(a, b) || a == b || Less(b, a)
  {
    forall a ensures !Less(a, a) { LessIrreflexive(a); }
    forall a, b, c | Less(a, b) && Less(b, c) ensures Less(a, c) { LessTransitive(a, b, c); }
    forall a, b ensures Less(a, b) || a == b || Less(b, a) { LessTotal(a, b); }
  }

  /** A common prefix does not change the order. */
  lemma {:induction false} LessPrefix(p: Bytes, a: Bytes, b: Bytes)
    ensures Less(p + a, p + b) <==> Less(a, b)
  {
    if p == [] {
      assert p + a == a && p + b == b;
    } else {
      assert (p + a)[1..] == p[1..] + a && (p + b)[1..] == p[1..] + b;
      LessPrefix(p[1..], a, b);
    }
  }
}
