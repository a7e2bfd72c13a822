/** The k-way merge: a binary min-heap of sorted streams. */
module MergeHeap {
  import opened Bytes

  type LessFunc = (Bytes, Bytes) -> bool

  /** Irreflexive, transitive, and incomparability is transitive. */
  ghost predicate StrictWeakOrder(less: LessFunc) {
    && (forall a :: !less(a, a))
    && (forall a, b, c :: less(a, b) && less(b, c) ==> less(a, c))
    && (forall a, b, c :: !less(a, b) && !less(b, c) ==> !less(a, c))
  }

  predicate NotAfter(less: LessFunc, a: Bytes, b: Bytes) { !less(b, a) }

  lemma NotAfterTransitive(less: LessFunc, a: Bytes, b: Bytes, c: Bytes)
    requires StrictWeakOrder(less) && NotAfter(less, a, b) && NotAfter(less, b, c)
    ensures NotAfter(less, a, c)
  {
  }

  predicate InOrder(less: LessFunc, s: seq<Bytes>) {
    forall i, j :: 0 <= i < j < |s| ==> NotAfter(less, s[i], s[j])
  }

  // ------------------------------------------------------------------ streams

  /** A stream: its current item and what is still to be read. */
  datatype Entry = Entry(value: Bytes, rest: seq<Bytes>)

  function Items(e: Entry): seq<Bytes> { [e.value] + e.rest }

  /** How often an item occurs; without an item, the length. */
  function Occurs(s: seq<Bytes>, x: Option<Bytes>): nat {
    if x.None? then |s| else multiset(s)[x.value]
  }

  /** The same for all streams together. */
  function Total(entries: seq<Entry>, x: Option<Bytes>): nat {
    if entries == [] then 0
    else Total(entries[..|entries| - 1], x) + Occurs(Items(entries[|entries| - 1]), x)
  }

  ghost predicate SameItems(a: seq<Entry>, b: seq<Entry>) { forall x :: Total(a, x) == Total(b, x) }

  lemma {:induction false} TotalUpdate(s: seq<Entry>, i: nat, e: Entry, x: Option<Bytes>)
    requires i < |s|
    ensures Total(s[i := e], x) + Occurs(Items(s[i]), x) == Total(s, x) + Occurs(Items(e), x)
  {
    hide Items, Occurs;
    var n := |s| - 1;
    if i < n {
      TotalUpdate(s[..n], i, e, x);
      assert s[i := e][..n] == s[..n][i := e];
    } else {
      assert s[i := e][..n] == s[..n];
    }
  }

  lemma SwapKeepsItems(s: seq<Entry>, i: nat, j: nat)
    requires i < |s| && j < |s|
    ensures SameItems(Swapped(s, i, j), s)
  {
    hide Total, Items, Occurs;
    forall x ensures Total(Swapped(s, i, j), x) == Total(s, x) {
      TotalUpdate(s, i, s[j], x);
      TotalUpdate(s[i := s[j]], j, s[i], x);
    }
  }

  predicate AllInOrder(less: LessFunc, entries: seq<Entry>) {
    forall i :: 0 <= i < |entries| ==> InOrder(less, Items(entries[i]))
  }

  // ------------------------------------------------------------------ the heap property

  function Parent(c: nat): nat
    requires c >= 1
  {
    (c - 1) / 2
  }

  predicate EdgeOk(less: LessFunc, s: seq<Entry>, c: nat)
    requires 1 <= c < |s|
  {
    NotAfter(less, s[Parent(c)].value, s[c].value)
  }

  /** Every edge below `n` whose upper end is at least `from` is in order, except those under `hole`. */
  predicate HeapFrom(less: LessFunc, s: seq<Entry>, n: nat, from: nat, hole: int)
    requires n <= |s|
  {
    forall c :: 1 <= c < n && Parent(c) >= from && Parent(c) != hole ==> EdgeOk(less, s, c)
  }

  predicate IsHeap(less: LessFunc, s: seq<Entry>) { HeapFrom(less, s, |s|, 0, -1) }

  /** The root of a heap is not after any other value. */
  lemma {:induction false} RootIsLeast(less: LessFunc, s: seq<Entry>, i: nat)
    requires StrictWeakOrder(less) && IsHeap(less, s) && i < |s|
    ensures NotAfter(less, s[0].value, s[i].value)
    decreases i
  {
    if i > 0 {
      RootIsLeast(less, s, Parent(i));
      assert EdgeOk(less, s, i);
      NotAfterTransitive(less, s[0].value, s[Parent(i)].value, s[i].value);
    }
  }

  function Swapped(s: seq<Entry>, i: nat, j: nat): (r: seq<Entry>)
    requires i < |s| && j < |s|
    ensures |r| == |s| && r[i] == s[j] && r[j] == s[i]
    ensures forall k :: 0 <= k < |s| && k != i && k != j ==> r[k] == s[k]
  {
    s[i := s[j]][j := s[i]]
  }

  /** The child to move up: the smaller one. */
  function SmallerChild(less: LessFunc, s: seq<Entry>, i: nat, n: nat): (j: nat)
    requires 2 * i + 1 < n <= |s|
    ensures j == 2 * i + 1 || (j == 2 * i + 2 && j < n)
    ensures Parent(j) == i
  {
    if 2 * i + 2 < n && less(s[2 * i + 2].value, s[2 * i + 1].value) then 2 * i + 2 else 2 * i + 1
  }

  lemma SmallerChildIsLeast(less: LessFunc, s: seq<Entry>, i: nat, n: nat, c: nat)
    requires StrictWeakOrder(less) && 2 * i + 1 < n <= |s| && 1 <= c < n && Parent(c) == i
    ensures NotAfter(less, s[SmallerChild(less, s, i, n)].value, s[c].value)
  {
    assert c == 2 * i + 1 || c == 2 * i + 2;
  }

  /** Sifting down: what holds while the hole is at `i`. */
  ghost predicate Sifting(less: LessFunc, s: seq<Entry>, n: nat, from: nat, i: nat)
    requires n <= |s|
  {
    && from <= i && HeapFrom(less, s, n, from, i)
    && (i > from ==>
      && i >= 1 && Parent(i) >= from && i < n
      && forall c :: 1 <= c < n && Parent(c) == i ==> NotAfter(less, s[Parent(i)].value, s[c].value))
  }

  lemma SiftStep(less: LessFunc, s: seq<Entry>, n: nat, from: nat, i: nat, j: nat)
    requires StrictWeakOrder(less) && n <= |s| && Sifting(less, s, n, from, i)
    requires 2 * i + 1 < n && j == SmallerChild(less, s, i, n) && less(s[j].value, s[i].value)
    ensures Sifting(less, Swapped(s, i, j), n, from, j)
  {
    var r := Swapped(s, i, j);
    forall c | 1 <= c < n && Parent(c) >= from && Parent(c) != j ensures EdgeOk(less, r, c) {
      if Parent(c) == i {
        SmallerChildIsLeast(less, s, i, n, c);
      } else if c == i {
        assert NotAfter(less, s[Parent(i)].value, s[j].value);
      } else {
        assert EdgeOk(less, s, c);
      }
    }
    forall c | 1 <= c < n && Parent(c) == j ensures NotAfter(less, r[Parent(j)].value, r[c].value) {
      assert EdgeOk(less, s, c);
    }
  }

  lemma SiftEnd(less: LessFunc, s: seq<Entry>, n: nat, from: nat, i: nat)
    requires StrictWeakOrder(less) && n <= |s| && Sifting(less, s, n, from, i)
    requires 2 * i + 1 < n ==> !less(s[SmallerChild(less, s, i, n)].value, s[i].value)
    ensures HeapFrom(less, s, n, from, -1)
  {
    forall c | 1 <= c < n && Parent(c) >= from ensures EdgeOk(less, s, c) {
      if Parent(c) == i {
        SmallerChildIsLeast(less, s, i, n, c);
        NotAfterTransitive(less, s[i].value, s[SmallerChild(less, s, i, n)].value, s[c].value);
      }
    }
  }

  // ------------------------------------------------------------------ the merge

  class MultiWayMerge {
    const less: LessFunc
    var entries: seq<Entry>

    ghost predicate Valid()
      reads this
    {
      StrictWeakOrder(less) && AllInOrder(less, entries) && IsHeap(less, entries)
    }

    /** A heap over the non-empty streams. */
    constructor (streams: seq<seq<Bytes>>, less: LessFunc)
      requires StrictWeakOrder(less) && forall i :: 0 <= i < |streams| ==> InOrder(less, streams[i])
      ensures Valid() && this.less == less && Opens(streams, entries)
    {
      hide StrictWeakOrder, Total, InOrder, StreamsTotal;
      this.less := less;
      var live := [];
      NoStreams();
      assert streams[..0] == [];
      for i := 0 to |streams|
        invariant AllInOrder(less, live) && Opens(streams[..i], live)
      {
        assert streams[..i + 1] == streams[..i] + [streams[i]];
        OpensNext(streams[..i], live, streams[i]);
        if streams[i] != [] {
          var e := Entry(streams[i][0], streams[i][1..]);
          assert Items(e) == streams[i];
          live := live + [e];
        }
      }
      assert streams[..|streams|] == streams;
      entries := live;
      new;
      Heapify();
    }

    /** Sifts the entry at `from` down within the first `n`; tells whether it moved. */
    method Down(from: nat, n: nat) returns (moved: bool)
      requires StrictWeakOrder(less) && n <= |entries| && from < n && HeapFrom(less, entries, n, from, from)
      requires AllInOrder(less, entries)
      modifies this`entries
      ensures |entries| == |old(entries)| && SameItems(entries, old(entries)) && AllInOrder(less, entries)
      ensures HeapFrom(less, entries, n, from, -1)
      ensures forall k :: 0 <= k < |entries| && (k < from || k >= n) ==> entries[k] == old(entries)[k]
    {
      hide StrictWeakOrder, Total, HeapFrom, InOrder;
      var i := from;
      while 2 * i + 1 < n
        invariant from <= i < n && |entries| == |old(entries)| && SameItems(entries, old(entries))
        invariant AllInOrder(less, entries) && Sifting(less, entries, n, from, i)
        invariant forall k :: 0 <= k < |entries| && (k < from || k >= n) ==> entries[k] == old(entries)[k]
        decreases n - i
      {
        var j := SmallerChild(less, entries, i, n);
        if !less(entries[j].value, entries[i].value) { break; }
        SiftStep(less, entries, n, from, i, j);
        SwapKeepsItems(entries, i, j);
        entries := Swapped(entries, i, j);
        i := j;
      }
      SiftEnd(less, entries, n, from, i);
      moved := i > from;
    }

    /** `heap.Init`. */
    method Heapify()
      requires StrictWeakOrder(less) && AllInOrder(less, entries)
      modifies this`entries
      ensures Valid() && SameItems(entries, old(entries))
    {
      hide StrictWeakOrder, Total, InOrder;
      var n := |entries|;
      var i := n / 2;
      while i > 0
        invariant 0 <= i <= n / 2 && |entries| == n && SameItems(entries, old(entries)) && AllInOrder(less, entries)
        invariant HeapFrom(less, entries, n, i, -1)
      {
        i := i - 1;
        var _ := Down(i, n);
      }
    }

    /** The root stream has moved on: `heap.Fix` at the root, where sifting up does nothing. */
    method AdvanceRoot()
      requires Valid() && entries != [] && entries[0].rest != []
      modifies this`entries
      ensures Valid() && Takes(old(entries), old(entries)[0].value, entries)
    {
      hide StrictWeakOrder, Total, InOrder, NotAfter;
      AdvanceTakes(less, entries);
      var root := entries[0];
      entries := entries[0 := Entry(root.rest[0], root.rest[1..])];
      ghost var advanced := entries;
      var _ := Down(0, |entries|);
      TakesSame(old(entries), root.value, advanced, entries);
    }

    /** `heap.Remove` at the root: the last entry takes its place and sinks. */
    method RemoveRoot()
      requires Valid() && entries != [] && entries[0].rest == []
      modifies this`entries
      ensures Valid() && Takes(old(entries), old(entries)[0].value, entries)
    {
      hide StrictWeakOrder, Total, InOrder, NotAfter;
      var n := |entries| - 1;
      ghost var before := entries;
      SwapKeepsItems(entries, 0, n);
      if n != 0 {
        entries := Swapped(entries, 0, n);
        var _ := Down(0, n);
      }
      DropTakes(before, entries, n);
      HeapPrefix(less, entries, n);
      entries := entries[..n];
    }

    /** The least item of all streams, which then moves on; an exhausted stream leaves the heap. */
    method Next() returns (item: Option<Bytes>)
      requires Valid()
      modifies this`entries
      ensures Valid()
      ensures old(entries) == [] ==> item == None && entries == []
      ensures old(entries) != [] ==> item.Some? && Takes(old(entries), item.value, entries)
      ensures old(entries) != [] ==> Least(less, item.value, old(entries))
    {
      hide StrictWeakOrder, Total, InOrder, IsHeap;
      if entries == [] { return None; }
      var root := entries[0];
      item := Some(root.value);
      RootLeast(less, entries);
      if root.rest == [] {
        RemoveRoot();
      } else {
        AdvanceRoot();
      }
    }
  }

  function One(x: Option<Bytes>, item: Bytes): nat { if x == None || x == Some(item) then 1 else 0 }

  /** `after` holds the items of `before` but for one occurrence of `item`. */
  ghost predicate Takes(before: seq<Entry>, item: Bytes, after: seq<Entry>) {
    forall x :: Total(before, x) == Total(after, x) + One(x, item)
  }

  ghost predicate Least(less: LessFunc, item: Bytes, entries: seq<Entry>) {
    forall x :: Total(entries, Some(x)) > 0 ==> NotAfter(less, item, x)
  }

  lemma {:induction false} OccursSomewhere(s: seq<Entry>, x: Bytes) returns (i: nat)
    requires Total(s, Some(x)) > 0
    ensures i < |s| && x in Items(s[i])
  {
    if Occurs(Items(s[|s| - 1]), Some(x)) > 0 {
      i := |s| - 1;
    } else {
      i := OccursSomewhere(s[..|s| - 1], x);
    }
  }

  lemma RootLeast(less: LessFunc, s: seq<Entry>)
    requires StrictWeakOrder(less) && IsHeap(less, s) && AllInOrder(less, s) && s != []
    ensures Least(less, s[0].value, s)
  {
    hide Total;
    forall x | Total(s, Some(x)) > 0 ensures NotAfter(less, s[0].value, x) {
      var i := OccursSomewhere(s, x);
      RootIsLeast(less, s, i);
      var k :| 0 <= k < |Items(s[i])| && Items(s[i])[k] == x;
      assert NotAfter(less, Items(s[i])[0], x);
      NotAfterTransitive(less, s[0].value, s[i].value, x);
    }
  }

  lemma AdvanceTakes(less: LessFunc, s: seq<Entry>)
    requires IsHeap(less, s) && AllInOrder(less, s) && s != [] && s[0].rest != []
    ensures var r := s[0 := Entry(s[0].rest[0], s[0].rest[1..])];
      Takes(s, s[0].value, r) && AllInOrder(less, r) && HeapFrom(less, r, |r|, 0, 0)
  {
    hide Total, NotAfter, Occurs, InOrder;
    var e := Entry(s[0].rest[0], s[0].rest[1..]);
    assert Items(e) == s[0].rest;
    TailInOrder(less, s[0]);
    forall x ensures Total(s, x) == Total(s[0 := e], x) + One(x, s[0].value) {
      TotalUpdate(s, 0, e, x);
      OccursTail(s[0], x);
    }
    var r := s[0 := e];
    forall c | 1 <= c < |r| && Parent(c) >= 0 && Parent(c) != 0 ensures EdgeOk(less, r, c) {
      assert EdgeOk(less, s, c);
    }
  }

  lemma OccursTail(e: Entry, x: Option<Bytes>)
    ensures Occurs(Items(e), x) == Occurs(e.rest, x) + One(x, e.value)
  {
  }

  lemma TailInOrder(less: LessFunc, e: Entry)
    requires InOrder(less, Items(e))
    ensures InOrder(less, e.rest)
  {
    hide NotAfter;
    assert forall i :: 0 <= i < |e.rest| ==> e.rest[i] == Items(e)[i + 1];
  }

  lemma TakesSame(before: seq<Entry>, item: Bytes, mid: seq<Entry>, after: seq<Entry>)
    requires Takes(before, item, mid) && SameItems(after, mid)
    ensures Takes(before, item, after)
  {
    hide Total;
  }

  lemma DropTakes(before: seq<Entry>, after: seq<Entry>, n: nat)
    requires |before| == |after| == n + 1 && SameItems(after, before) && after[n] == before[0] && before[0].rest == []
    ensures Takes(before, before[0].value, after[..n])
  {
    assert Items(after[n]) == [before[0].value];
  }

  lemma HeapPrefix(less: LessFunc, s: seq<Entry>, n: nat)
    requires n <= |s| && HeapFrom(less, s, n, 0, -1) && AllInOrder(less, s)
    ensures IsHeap(less, s[..n]) && AllInOrder(less, s[..n])
  {
    hide NotAfter, InOrder;
    forall c | 1 <= c < n && Parent(c) >= 0 && Parent(c) != -1 ensures EdgeOk(less, s[..n], c) {
      assert EdgeOk(less, s, c);
    }
  }

  // ------------------------------------------------------------------ merging everything

  function StreamsTotal(streams: seq<seq<Bytes>>, x: Option<Bytes>): nat {
    if streams == [] then 0
    else StreamsTotal(streams[..|streams| - 1], x) + Occurs(streams[|streams| - 1], x)
  }

  ghost predicate Opens(streams: seq<seq<Bytes>>, entries: seq<Entry>) {
    forall x :: Total(entries, x) == StreamsTotal(streams, x)
  }

  lemma NoStreams()
    ensures Opens([], [])
  {
  }

  lemma OpensNext(streams: seq<seq<Bytes>>, entries: seq<Entry>, s: seq<Bytes>)
    requires Opens(streams, entries)
    ensures s == [] ==> Opens(streams + [s], entries)
    ensures s != [] ==> Opens(streams + [s], entries + [Entry(s[0], s[1..])])
  {
    assert (streams + [s])[..|streams|] == streams;
    forall x ensures StreamsTotal(streams + [s], x) == StreamsTotal(streams, x) + Occurs(s, x) {}
    if s != [] {
      var e := Entry(s[0], s[1..]);
      assert Items(e) == s && (entries + [e])[..|entries|] == entries;
      forall x ensures Total(entries + [e], x) == Total(entries, x) + Occurs(s, x) {}
    }
  }

  /** The output so far, and what is left: together all items, and nothing left belongs before. */
  ghost predicate Merging(less: LessFunc, streams: seq<seq<Bytes>>, out: seq<Bytes>, entries: seq<Entry>) {
    && InOrder(less, out)
    && (forall x :: StreamsTotal(streams, x) == Occurs(out, x) + Total(entries, x))
    && forall i :: 0 <= i < |out| ==> Least(less, out[i], entries)
  }

  lemma MergeStep(less: LessFunc, streams: seq<seq<Bytes>>, out: seq<Bytes>, before: seq<Entry>, item: Bytes,
                  after: seq<Entry>)
    requires Merging(less, streams, out, before) && Takes(before, item, after) && Least(less, item, before)
    ensures Merging(less, streams, out + [item], after)
    ensures Total(after, None) < Total(before, None)
  {
    hide Total, StreamsTotal, NotAfter;
    assert Total(before, Some(item)) == Total(after, Some(item)) + One(Some(item), item);
    assert Total(before, None) == Total(after, None) + One(None, item);
    forall x ensures Occurs(out + [item], x) == Occurs(out, x) + One(x, item) { OccursAppend(out, item, x); }
    forall i | 0 <= i < |out + [item]| ensures Least(less, (out + [item])[i], after) {
      forall x | Total(after, Some(x)) > 0 ensures NotAfter(less, (out + [item])[i], x) {
        assert Total(before, Some(x)) > 0;
        assert i < |out| ==> Least(less, out[i], before);
      }
    }
    forall i | 0 <= i < |out| ensures NotAfter(less, out[i], item) { assert Least(less, out[i], before); }
  }

  lemma OccursAppend(s: seq<Bytes>, item: Bytes, x: Option<Bytes>)
    ensures Occurs(s + [item], x) == Occurs(s, x) + One(x, item)
  {
  }

  /** Merging streams that are in order yields all their items in order. */
  method MergeAll(streams: seq<seq<Bytes>>, less: LessFunc) returns (out: seq<Bytes>)
    requires StrictWeakOrder(less) && forall i :: 0 <= i < |streams| ==> InOrder(less, streams[i])
    ensures InOrder(less, out) && forall x :: Occurs(out, x) == StreamsTotal(streams, x)
  {
    hide StrictWeakOrder, InOrder, StreamsTotal, Total, AllInOrder, IsHeap;
    var merge := new MultiWayMerge(streams, less);
    out := [];
    MergeStart(less, streams, merge.entries);
    while true
      invariant fresh(merge) && merge.Valid() && merge.less == less && Merging(less, streams, out, merge.entries)
      decreases Total(merge.entries, None)
    {
      ghost var before := merge.entries;
      var item := merge.Next();
      if item.None? { break; }
      MergeStep(less, streams, out, before, item.value, merge.entries);
      out := out + [item.value];
    }
    forall x ensures Total([], x) == 0 { NothingLeft(x); }
  }

  lemma MergeStart(less: LessFunc, streams: seq<seq<Bytes>>, entries: seq<Entry>)
    requires Opens(streams, entries)
    ensures Merging(less, streams, [], entries)
  {
    hide Total, StreamsTotal;
  }

  lemma NothingLeft(x: Option<Bytes>)
    ensures Total([], x) == 0
  {
  }
}
