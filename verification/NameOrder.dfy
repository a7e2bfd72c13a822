/** Stable ordering of records by a byte-string key. */
module NameOrder {
  import opened Bytes

  /** Stable: an equal key goes behind the ones already placed. */
  function Insert<T>(key: T -> Bytes, xs: seq<T>, x: T): seq<T> {
    if xs == [] || AtMost(key(xs[|xs| - 1]), key(x)) then xs + [x]
    else Insert(key, xs[..|xs| - 1], x) + [xs[|xs| - 1]]
  }

  function Sort<T>(key: T -> Bytes, xs: seq<T>): seq<T> {
    if xs == [] then [] else Insert(key, Sort(key, xs[..|xs| - 1]), xs[|xs| - 1])
  }

  predicate Distinct<T>(key: T -> Bytes, xs: seq<T>) {
    forall i, j :: 0 <= i < j < |xs| ==> key(xs[i]) != key(xs[j])
  }

  predicate Ascending<T>(key: T -> Bytes, xs: seq<T>) {
    forall i, j :: 0 <= i < j < |xs| ==> Less(key(xs[i]), key(xs[j]))
  }

  predicate Ordered<T>(key: T -> Bytes, xs: seq<T>) {
    forall i, j :: 0 <= i < j < |xs| ==> AtMost(key(xs[i]), key(xs[j]))
  }

  ghost predicate SameElements<T(!new)>(xs: seq<T>, ys: seq<T>) {
    forall x :: x in xs <==> x in ys
  }

  lemma {:induction false} InsertOrders<T(!new)>(key: T -> Bytes, xs: seq<T>, x: T)
    requires Ordered(key, xs)
    ensures Ordered(key, Insert(key, xs, x)) && SameElements(Insert(key, xs, x), xs + [x])
  {
    if xs != [] {
      var front, last := xs[..|xs| - 1], xs[|xs| - 1];
      LessTotal(key(last), key(x));
      if !AtMost(key(last), key(x)) {
        InsertOrders(key, front, x);
        assert xs == front + [last];
        var placed := Insert(key, front, x);
        forall i | 0 <= i < |placed| ensures AtMost(key(placed[i]), key(last)) {
          assert placed[i] in front + [x];
        }
      } else {
        LessOrder();
      }
    }
  }

  /** Sorting orders the records and keeps exactly the same ones. */
  lemma {:induction false} SortOrders<T(!new)>(key: T -> Bytes, xs: seq<T>)
    ensures Ordered(key, Sort(key, xs)) && SameElements(Sort(key, xs), xs)
  {
    if xs != [] {
      var front := xs[..|xs| - 1];
      SortOrders(key, front);
      InsertOrders(key, Sort(key, front), xs[|xs| - 1]);
      assert xs == front + [xs[|xs| - 1]];
    }
  }

  lemma {:induction false} InsertDistinct<T(!new)>(key: T -> Bytes, xs: seq<T>, x: T)
    requires Distinct(key, xs) && Ordered(key, xs) && forall i :: 0 <= i < |xs| ==> key(xs[i]) != key(x)
    ensures Distinct(key, Insert(key, xs, x))
  {
    if xs != [] && !AtMost(key(xs[|xs| - 1]), key(x)) {
      var front, last := xs[..|xs| - 1], xs[|xs| - 1];
      InsertDistinct(key, front, x);
      InsertOrders(key, front, x);
      var placed := Insert(key, front, x);
      forall i | 0 <= i < |placed| ensures key(placed[i]) != key(last) {
        assert placed[i] in front + [x];
      }
    }
  }

  /** Distinct keys stay distinct, so the sorted records ascend strictly. */
  lemma {:induction false} SortDistinct<T(!new)>(key: T -> Bytes, xs: seq<T>)
    requires Distinct(key, xs)
    ensures Distinct(key, Sort(key, xs)) && Ascending(key, Sort(key, xs))
  {
    SortOrders(key, xs);
    if xs != [] {
      var front, last := xs[..|xs| - 1], xs[|xs| - 1];
      SortDistinct(key, front);
      SortOrders(key, front);
      var sorted := Sort(key, front);
      forall i | 0 <= i < |sorted| ensures key(sorted[i]) != key(last) {
        assert sorted[i] in front;
      }
      InsertDistinct(key, sorted, last);
    }
  }

  lemma AscendingDistinct<T>(key: T -> Bytes, xs: seq<T>)
    requires Ascending(key, xs)
    ensures Distinct(key, xs)
  {
    forall i, j | 0 <= i < j < |xs| ensures key(xs[i]) != key(xs[j]) {
      LessIrreflexive(key(xs[i]));
    }
  }

  /** The last element is the only one that no other element follows. */
  lemma LastIsGreatest<T(!new)>(key: T -> Bytes, xs: seq<T>, x: T)
    requires xs != [] && Ascending(key, xs) && x in xs
    ensures x == xs[|xs| - 1] || Less(key(x), key(xs[|xs| - 1]))
  {
    var i :| 0 <= i < |xs| && xs[i] == x;
  }

  lemma WithoutLast<T(!new)>(key: T -> Bytes, xs: seq<T>)
    requires xs != [] && Ascending(key, xs)
    ensures forall z :: z in xs[..|xs| - 1] <==> z in xs && z != xs[|xs| - 1]
  {
    AscendingDistinct(key, xs);
    assert xs == xs[..|xs| - 1] + [xs[|xs| - 1]];
  }

  /** Strictly ascending records are determined by which records they are. */
  lemma {:induction false} AscendingUnique<T(!new)>(key: T -> Bytes, xs: seq<T>, ys: seq<T>)
    requires Ascending(key, xs) && Ascending(key, ys) && SameElements(xs, ys)
    ensures xs == ys
  {
    assert (xs != [] ==> xs[0] in xs) && (ys != [] ==> ys[0] in ys);
    if xs != [] {
      var x, y := xs[|xs| - 1], ys[|ys| - 1];
      assert x in xs && y in ys;
      LastIsGreatest(key, xs, y);
      LastIsGreatest(key, ys, x);
      LessOrder();
      assert x == y;
      var front, rest := xs[..|xs| - 1], ys[..|ys| - 1];
      WithoutLast(key, xs);
      WithoutLast(key, ys);
      forall z | z in front ensures z in rest { assert z in xs; }
      forall z | z in rest ensures z in front { assert z in ys; }
      AscendingUnique(key, front, rest);
      assert xs == front + [x] && ys == rest + [x];
    }
  }
}
