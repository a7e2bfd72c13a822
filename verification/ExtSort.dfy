/** External sorting: chunks sorted and saved in the background, in any order of completion, and merged. */
module ExtSort {
  import opened Bytes
  import opened Encoding
  import opened DeltaEncoding
  import opened MergeHeap

  // ------------------------------------------------------------------ sorting one chunk

  function Insert(less: LessFunc, s: seq<Bytes>, x: Bytes): seq<Bytes> {
    if s == [] || !less(x, s[|s| - 1]) then s + [x]
    else Insert(less, s[..|s| - 1], x) + [s[|s| - 1]]
  }

  lemma {:induction false} InsertCounts(less: LessFunc, s: seq<Bytes>, x: Bytes, y: Option<Bytes>)
    ensures Occurs(Insert(less, s, x), y) == Occurs(s, y) + One(y, x)
  {
    if s == [] || !less(x, s[|s| - 1]) {
      OccursAppend(s, x, y);
    } else {
      var front, last := s[..|s| - 1], s[|s| - 1];
      InsertCounts(less, front, x, y);
      OccursAppend(Insert(less, front, x), last, y);
      OccursAppend(front, last, y);
      assert s == front + [last];
    }
  }

  lemma {:induction false} InsertOrders(less: LessFunc, s: seq<Bytes>, x: Bytes)
    requires StrictWeakOrder(less) && InOrder(less, s)
    ensures InOrder(less, Insert(less, s, x))
    ensures forall y :: y in Insert(less, s, x) ==> y in s || y == x
  {
    hide StrictWeakOrder;
    if s != [] {
      var front, last := s[..|s| - 1], s[|s| - 1];
      if less(x, last) {
        InsertOrders(less, front, x);
        Asymmetric(less, x, last);
        var placed := Insert(less, front, x);
        forall i | 0 <= i < |placed| ensures NotAfter(less, placed[i], last) {
          assert placed[i] in placed;
        }
      } else {
        forall i | 0 <= i < |s| ensures NotAfter(less, s[i], x) {
          if i < |s| - 1 { NotAfterTransitive(less, s[i], last, x); }
        }
      }
    }
  }

  lemma Asymmetric(less: LessFunc, a: Bytes, b: Bytes)
    requires StrictWeakOrder(less) && less(a, b)
    ensures !less(b, a)
  {
  }

  /** `sort.Slice`: the items of the chunk, in order. */
  method SortSlice(less: LessFunc, chunk: seq<Bytes>) returns (s: seq<Bytes>)
    requires StrictWeakOrder(less)
    ensures InOrder(less, s) && forall x :: Occurs(s, x) == Occurs(chunk, x)
  {
    hide StrictWeakOrder, InOrder, Insert, Occurs;
    s := [];
    NoneInOrder(less);
    assert chunk[..0] == [];
    for i := 0 to |chunk|
      invariant InOrder(less, s) && forall x :: Occurs(s, x) == Occurs(chunk[..i], x)
    {
      InsertOrders(less, s, chunk[i]);
      assert chunk[..i + 1] == chunk[..i] + [chunk[i]];
      forall x ensures Occurs(Insert(less, s, chunk[i]), x) == Occurs(chunk[..i + 1], x) {
        InsertCounts(less, s, chunk[i], x);
        OccursAppend(chunk[..i], chunk[i], x);
      }
      s := Insert(less, s, chunk[i]);
    }
    assert chunk[..|chunk|] == chunk;
  }

  lemma NoneInOrder(less: LessFunc)
    ensures InOrder(less, [])
  {
  }

  // ------------------------------------------------------------------ chunk files

  predicate Short(items: seq<Bytes>) { forall i :: 0 <= i < |items| ==> |items[i]| < TWO_32 }

  lemma {:induction false} SameItemsShort(a: seq<Bytes>, b: seq<Bytes>)
    requires Short(a) && forall x :: Occurs(b, x) == Occurs(a, x)
    ensures Short(b)
  {
    forall i | 0 <= i < |b| ensures |b[i]| < TWO_32 {
      assert Occurs(b, Some(b[i])) == Occurs(a, Some(b[i]));
      assert b[i] in multiset(b);
      assert b[i] in a;
    }
  }

  /** Reads a chunk file from start to end. */
  method ReadFile(file: Bytes, ghost keys: seq<Bytes>) returns (items: seq<Bytes>)
    requires file == EncodeAll([], keys) && Short(keys)
    ensures items == keys
  {
    hide EncodeAll;
    var reader := new DeltaReader(file, keys);
    items := [];
    while true
      invariant fresh(reader) && reader.Valid() && items + reader.keys == keys
      decreases |reader.keys|
    {
      ghost var left := reader.keys;
      var r := reader.Next();
      if !r.Item? { break; }
      assert left == [left[0]] + left[1..];
      items := items + [r.key];
    }
  }

  ghost predicate FileHolds(less: LessFunc, file: Bytes, chunk: seq<Bytes>) {
    file == EncodeAll([], chunk) && InOrder(less, chunk) && Short(chunk)
  }

  ghost predicate FilesHold(less: LessFunc, files: seq<Bytes>, chunks: seq<seq<Bytes>>) {
    |files| == |chunks| && forall i :: 0 <= i < |files| ==> FileHolds(less, files[i], chunks[i])
  }

  ghost predicate AllShort(chunks: seq<seq<Bytes>>) { forall i :: 0 <= i < |chunks| ==> Short(chunks[i]) }

  /** Where every item fed is: in the current chunk, in a chunk being sorted, or in a chunk file. */
  ghost predicate Accounts(fed: seq<Bytes>, current: seq<Bytes>, sorting: seq<seq<Bytes>>, done: seq<seq<Bytes>>) {
    forall x :: Occurs(fed, x) == Occurs(current, x) + StreamsTotal(sorting, x) + StreamsTotal(done, x)
  }

  /** What a chunk counts for: its items, and four bytes for the length of each. */
  function Weight(chunk: seq<Bytes>): nat {
    if chunk == [] then 0 else Weight(chunk[..|chunk| - 1]) + |chunk[|chunk| - 1]| + 4
  }

  lemma WeightAppend(chunk: seq<Bytes>, item: Bytes)
    ensures Weight(chunk + [item]) == Weight(chunk) + |item| + 4
  {
    assert (chunk + [item])[..|chunk|] == chunk;
  }

  class ExtSorter {
    const less: LessFunc
    const maxChunkSize: int
    var currentChunk: seq<Bytes>
    var currentChunkSize: nat
    var sorting: seq<seq<Bytes>>
    var chunkFiles: seq<Bytes>
    ghost var chunks: seq<seq<Bytes>>
    ghost var fed: seq<Bytes>

    ghost predicate Valid()
      reads this
    {
      && StrictWeakOrder(less)
      && Accounts(fed, currentChunk, sorting, chunks)
      && FilesHold(less, chunkFiles, chunks) && Short(currentChunk) && AllShort(sorting)
      && currentChunkSize == Weight(currentChunk)
    }

    /** No more than the chunk size is held back. */
    ghost predicate Bounded()
      reads this
    {
      currentChunk != [] ==> Weight(currentChunk) < maxChunkSize
    }

    constructor (less: LessFunc, maxChunkSize: int)
      requires StrictWeakOrder(less)
      ensures Valid() && Bounded() && fed == [] && this.less == less && this.maxChunkSize == maxChunkSize
    {
      this.less, this.maxChunkSize := less, maxChunkSize;
      currentChunk, currentChunkSize, sorting, chunkFiles := [], 0, [], [];
      chunks, fed := [], [];
    }

    /** Takes an item; an item of 2^32 bytes or more is refused. A chunk goes to the background with the item
        that fills it. */
    method Feed(item: Bytes) returns (ok: bool)
      requires Valid() && Bounded()
      modifies this
      ensures Valid() && Bounded() && ok == (|item| < TWO_32)
      ensures fed == if ok then old(fed) + [item] else old(fed)
      ensures !ok ==> currentChunk == old(currentChunk) && sorting == old(sorting)
      ensures var chunk := old(currentChunk) + [item];
        ok && Weight(chunk) < maxChunkSize ==> currentChunk == chunk && sorting == old(sorting)
      ensures var chunk := old(currentChunk) + [item];
        ok && Weight(chunk) >= maxChunkSize ==> currentChunk == [] && sorting == old(sorting) + [chunk]
    {
      hide StrictWeakOrder, Accounts, FilesHold, AllShort, Weight;
      if |item| >= TWO_32 { return false; }
      WeightAppend(currentChunk, item);
      AccountsFeed(fed, currentChunk, sorting, chunks, item);
      currentChunkSize := currentChunkSize + |item| + 4;
      currentChunk := currentChunk + [item];
      fed := fed + [item];
      if currentChunkSize >= maxChunkSize { SortChunkAndRotate(); }
      return true;
    }

    method SortChunkAndRotate()
      requires Valid()
      modifies this
      ensures Valid() && fed == old(fed) && currentChunk == [] && sorting == old(sorting) + [old(currentChunk)]
    {
      hide StrictWeakOrder, Accounts, FilesHold, Short;
      AccountsRotate(fed, currentChunk, sorting, chunks);
      sorting := sorting + [currentChunk];
      NoneShort();
      currentChunk := [];
      currentChunkSize := 0;
    }

    /** A background job ends: its chunk is sorted, encoded and added to the finished files. */
    method CompleteChunk(k: nat)
      requires Valid() && k < |sorting|
      modifies this
      ensures Valid() && fed == old(fed) && |sorting| == |old(sorting)| - 1
      ensures currentChunk == old(currentChunk)
    {
      hide StrictWeakOrder, Accounts, InOrder, Short, Weight;
      var s := SortSlice(less, sorting[k]);
      SameItemsShort(sorting[k], s);
      var file := WriteKeys(s);
      AccountsComplete(fed, currentChunk, sorting, chunks, k, s);
      assert FileHolds(less, file, s);
      sorting := sorting[..k] + sorting[k + 1..];
      chunkFiles := chunkFiles + [file];
      chunks := chunks + [s];
    }

    /** Flushes, waits for the background jobs in whatever order they end, and merges the files: all
        items fed, in order. */
    method Finalize() returns (out: seq<Bytes>)
      requires Valid()
      modifies this
      ensures Valid() && fed == old(fed)
      ensures InOrder(less, out) && multiset(out) == multiset(fed)
    {
      hide StrictWeakOrder, Accounts, InOrder, FilesHold, Short, AllShort;
      if currentChunkSize > 0 { SortChunkAndRotate(); }
      while sorting != []
        invariant Valid() && fed == old(fed) && currentChunk == []
        decreases |sorting|
      {
        var k :| 0 <= k < |sorting|;
        CompleteChunk(k);
      }
      var streams := ReadAll(chunkFiles, chunks, less);
      out := MergeAll(streams, less);
      AccountsMerged(fed, chunks, out);
    }
  }

  method ReadAll(files: seq<Bytes>, ghost chunks: seq<seq<Bytes>>, ghost less: LessFunc)
    returns (streams: seq<seq<Bytes>>)
    requires FilesHold(less, files, chunks)
    ensures streams == chunks && forall i :: 0 <= i < |streams| ==> InOrder(less, streams[i])
  {
    hide InOrder, EncodeAll, Short;
    streams := [];
    for i := 0 to |files|
      invariant streams == chunks[..i]
    {
      assert FileHolds(less, files[i], chunks[i]);
      var items := ReadFile(files[i], chunks[i]);
      streams := streams + [items];
    }
    assert forall i :: 0 <= i < |files| ==> FileHolds(less, files[i], chunks[i]);
  }

  lemma NoneShort()
    ensures Short([])
  {
  }

  lemma StreamsAppend(streams: seq<seq<Bytes>>, s: seq<Bytes>, x: Option<Bytes>)
    ensures StreamsTotal(streams + [s], x) == StreamsTotal(streams, x) + Occurs(s, x)
  {
    assert (streams + [s])[..|streams|] == streams;
  }

  lemma {:induction false} StreamsRemove(streams: seq<seq<Bytes>>, k: nat, x: Option<Bytes>)
    requires k < |streams|
    ensures StreamsTotal(streams[..k] + streams[k + 1..], x) + Occurs(streams[k], x) == StreamsTotal(streams, x)
  {
    hide Occurs;
    var n := |streams| - 1;
    if k < n {
      StreamsRemove(streams[..n], k, x);
      var without := streams[..n][..k] + streams[..n][k + 1..];
      assert streams[..k] + streams[k + 1..] == without + [streams[n]];
      StreamsAppend(without, streams[n], x);
    } else {
      assert streams[..k] + streams[k + 1..] == streams[..n];
    }
  }

  lemma AccountsFeed(fed: seq<Bytes>, current: seq<Bytes>, sorting: seq<seq<Bytes>>, done: seq<seq<Bytes>>, item: Bytes)
    requires Accounts(fed, current, sorting, done)
    ensures Accounts(fed + [item], current + [item], sorting, done)
  {
    hide Occurs, StreamsTotal;
    forall x ensures Occurs(fed + [item], x)
      == Occurs(current + [item], x) + StreamsTotal(sorting, x) + StreamsTotal(done, x)
    {
      OccursAppend(fed, item, x);
      OccursAppend(current, item, x);
    }
  }

  lemma AccountsRotate(fed: seq<Bytes>, current: seq<Bytes>, sorting: seq<seq<Bytes>>, done: seq<seq<Bytes>>)
    requires Accounts(fed, current, sorting, done)
    ensures Accounts(fed, [], sorting + [current], done)
  {
    hide StreamsTotal;
    forall x ensures Occurs(fed, x) == Occurs([], x) + StreamsTotal(sorting + [current], x) + StreamsTotal(done, x) {
      StreamsAppend(sorting, current, x);
    }
  }

  lemma AccountsComplete(fed: seq<Bytes>, current: seq<Bytes>, sorting: seq<seq<Bytes>>, done: seq<seq<Bytes>>,
                         k: nat, s: seq<Bytes>)
    requires Accounts(fed, current, sorting, done) && k < |sorting| && forall x :: Occurs(s, x) == Occurs(sorting[k], x)
    ensures Accounts(fed, current, sorting[..k] + sorting[k + 1..], done + [s])
  {
    hide StreamsTotal, Occurs;
    forall x ensures Occurs(fed, x)
      == Occurs(current, x) + StreamsTotal(sorting[..k] + sorting[k + 1..], x) + StreamsTotal(done + [s], x)
    {
      StreamsRemove(sorting, k, x);
      StreamsAppend(done, s, x);
    }
  }

  lemma AccountsMerged(fed: seq<Bytes>, done: seq<seq<Bytes>>, out: seq<Bytes>)
    requires Accounts(fed, [], [], done) && forall x :: Occurs(out, x) == StreamsTotal(done, x)
    ensures multiset(out) == multiset(fed)
  {
    forall x: Bytes ensures multiset(out)[x] == multiset(fed)[x] {
      assert Occurs(out, Some(x)) == StreamsTotal(done, Some(x));
    }
  }

  // ------------------------------------------------------------------ every run

  datatype SortEvent = FeedItem(item: Bytes) | ChunkDone(k: nat)

  /** The items that were taken. */
  ghost function Fed(events: seq<SortEvent>): seq<Bytes> {
    if events == [] then []
    else
      var front, last := Fed(events[..|events| - 1]), events[|events| - 1];
      if last.FeedItem? && |last.item| < TWO_32 then front + [last.item] else front
  }

  /** However feeding and the background jobs interleave, whatever the chunk size, for every strict weak
      order: the result is a sorted permutation of the items. */
  method ExternalSort(less: LessFunc, maxChunkSize: int, events: seq<SortEvent>) returns (out: seq<Bytes>)
    requires StrictWeakOrder(less)
    ensures InOrder(less, out) && multiset(out) == multiset(Fed(events))
  {
    hide StrictWeakOrder, InOrder, Accounts, FilesHold, AllShort, Short;
    var sorter := new ExtSorter(less, maxChunkSize);
    assert events[..0] == [];
    for i := 0 to |events|
      invariant fresh(sorter) && sorter.Valid() && sorter.Bounded() && sorter.less == less
      invariant sorter.fed == Fed(events[..i])
    {
      assert events[..i + 1][..i] == events[..i];
      match events[i]
      case FeedItem(item) => var _ := sorter.Feed(item);
      case ChunkDone(k) => if k < |sorter.sorting| { sorter.CompleteChunk(k); }
    }
    assert events[..|events|] == events;
    out := sorter.Finalize();
  }
}
