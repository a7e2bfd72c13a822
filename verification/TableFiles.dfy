/** Converting one store's changes to table files: what is fed to the external sorter comes out as
    entries under the store's prefix, in the order of the database's comparator. */
module TableFiles {
  import opened Bytes
  import opened Encoding
  import opened ChangeSets
  import opened MergeHeap
  import opened ExtSort
  import opened SorterItems

  /** A pair as it was changed at a version. */
  datatype Change = Change(version: nat, pair: KvPair)

  /** A key with its timestamp; no value for a deletion. */
  datatype TableEntry = TableEntry(key: Bytes, value: Option<Bytes>)

  datatype ConvertEvent = FeedChange(change: Change) | JobDone(k: nat)

  /** The entry a change should become. */
  function EntryFor(prefix: Bytes, c: Change): TableEntry {
    TableEntry(InternalKey(prefix, c.version, c.pair.key), if c.pair.delete then None else Some(ValueBytes(c.pair)))
  }

  /** The entry that is written for an item of the sorted stream. */
  function EntryOf(prefix: Bytes, item: Bytes): TableEntry {
    match DecodeItem(item)
    case None => TableEntry([], None)
    case Some((ts, pair)) => TableEntry(prefix + pair.key + ts, if pair.delete then None else pair.value)
  }

  function UserKey(e: TableEntry): Bytes { if |e.key| < 8 then [] else e.key[..|e.key| - 8] }

  function VersionIn(e: TableEntry): nat { if |e.key| < 8 then 0 else FromLittleEndian(e.key[|e.key| - 8..]) }

  // ------------------------------------------------------------------ what is fed

  predicate Fits(c: Change) { c.version < TWO_64 && ItemSize(c.pair) < TWO_32 }

  function Encoded(c: Change): Bytes { EncodeItem(c.version, c.pair) }

  /** The changes that the sorter takes: items of 2^32 bytes or more are refused. */
  function Taken(events: seq<ConvertEvent>): seq<Change> {
    if events == [] then []
    else
      var front, last := Taken(events[..|events| - 1]), events[|events| - 1];
      if last.FeedChange? && ItemSize(last.change.pair) < TWO_32 then front + [last.change] else front
  }

  function SortEvents(events: seq<ConvertEvent>): seq<SortEvent> {
    if events == [] then []
    else
      var last := events[|events| - 1];
      SortEvents(events[..|events| - 1])
        + [if last.FeedChange? then FeedItem(Encoded(last.change)) else ChunkDone(last.k)]
  }

  function Items(changes: seq<Change>): (r: seq<Bytes>)
    ensures |r| == |changes| && forall i :: 0 <= i < |r| ==> r[i] == Encoded(changes[i])
  {
    seq(|changes|, i requires 0 <= i < |changes| => Encoded(changes[i]))
  }

  lemma {:induction false} FedIsTaken(events: seq<ConvertEvent>)
    ensures Fed(SortEvents(events)) == Items(Taken(events))
  {
    hide EncodeItem;
    if events != [] {
      var front, last := events[..|events| - 1], events[|events| - 1];
      FedIsTaken(front);
      var sorting := SortEvents(events);
      assert sorting[..|sorting| - 1] == SortEvents(front);
      if last.FeedChange? {
        EncodedLength(last.change.version, last.change.pair);
        assert sorting[|sorting| - 1] == FeedItem(Encoded(last.change));
      }
    }
  }

  predicate AllVersions(events: seq<ConvertEvent>) {
    forall i :: 0 <= i < |events| && events[i].FeedChange? ==> events[i].change.version < TWO_64
  }

  lemma {:induction false} TakenFits(events: seq<ConvertEvent>, c: Change)
    requires AllVersions(events) && c in Taken(events)
    ensures Fits(c)
  {
    if events != [] {
      var front, last := events[..|events| - 1], events[|events| - 1];
      if c in Taken(front) {
        assert forall i :: 0 <= i < |front| ==> front[i] == events[i];
        TakenFits(front, c);
      }
    }
  }

  // ------------------------------------------------------------------ items and entries

  /** An item decodes to the entry of its change. */
  lemma EntryOfItem(prefix: Bytes, c: Change)
    requires Fits(c)
    ensures EntryOf(prefix, Encoded(c)) == EntryFor(prefix, c)
    ensures UserKey(EntryFor(prefix, c)) == prefix + c.pair.key && |EntryFor(prefix, c).key| >= 8
    ensures VersionIn(EntryFor(prefix, c)) == c.version
    ensures KeyOf(Encoded(c)) == c.pair.key
  {
    hide LittleEndian, FromLittleEndian, EncodeItem, DecodeItem;
    ItemRoundTrip(c.version, c.pair);
    InternalParts(prefix, c.version, c.pair.key);
    EncodedParts(c.version, c.pair);
    EncodedLength(c.version, c.pair);
  }

  ghost predicate IsItem(item: Bytes) { exists c :: Fits(c) && item == Encoded(c) }

  ghost predicate AllItems(items: seq<Bytes>) { forall i :: 0 <= i < |items| ==> IsItem(items[i]) }

  lemma SameUserKey(prefix: Bytes, a: Bytes, b: Bytes)
    requires IsItem(a) && IsItem(b)
    ensures UserKey(EntryOf(prefix, a)) == UserKey(EntryOf(prefix, b)) <==> KeyOf(a) == KeyOf(b)
  {
    hide Fits, Encoded, KeyOf, UserKey, EntryOf, EntryFor;
    var c :| Fits(c) && a == Encoded(c);
    var d :| Fits(d) && b == Encoded(d);
    EntryOfItem(prefix, c);
    EntryOfItem(prefix, d);
    SameTail(prefix, c.pair.key, d.pair.key);
  }

  lemma SameTail(prefix: Bytes, a: Bytes, b: Bytes)
    ensures prefix + a == prefix + b <==> a == b
  {
    assert (prefix + a)[|prefix|..] == a && (prefix + b)[|prefix|..] == b;
  }

  /** The comparator does not put the first entry behind the second. */
  predicate EntryNotAfter(a: TableEntry, b: TableEntry) {
    |a.key| >= 8 && |b.key| >= 8 && CompareInternal(b.key, a.key) >= 0
  }

  /** By user key, and the entries of one user key from the newest to the oldest. */
  predicate NewestFirst(a: TableEntry, b: TableEntry) {
    Less(UserKey(a), UserKey(b)) || (UserKey(a) == UserKey(b) && VersionIn(a) >= VersionIn(b))
  }

  lemma ComparatorOrder(a: TableEntry, b: TableEntry)
    requires |a.key| >= 8 && |b.key| >= 8
    ensures EntryNotAfter(a, b) <==> NewestFirst(a, b)
  {
    hide FromLittleEndian;
    LessOrder();
  }

  lemma EntriesInOrder(prefix: Bytes, a: Bytes, b: Bytes)
    requires IsItem(a) && IsItem(b) && NotAfter(ItemLess, a, b)
    ensures EntryNotAfter(EntryOf(prefix, a), EntryOf(prefix, b))
    ensures NewestFirst(EntryOf(prefix, a), EntryOf(prefix, b))
  {
    hide Encoded, KeyOf, EntryOf, UserKey, ItemLess, CompareInternal, NewestFirst;
    var c :| Fits(c) && a == Encoded(c);
    var d :| Fits(d) && b == Encoded(d);
    EntryOfItem(prefix, c);
    EntryOfItem(prefix, d);
    Unfold(c);
    Unfold(d);
    OrdersAgree(prefix, d.version, d.pair, c.version, c.pair);
    ComparatorOrder(EntryOf(prefix, a), EntryOf(prefix, b));
  }

  lemma Unfold(c: Change)
    ensures Encoded(c) == EncodeItem(c.version, c.pair)
  {
  }

  // ------------------------------------------------------------------ tables

  function Table(prefix: Bytes, items: seq<Bytes>): (r: seq<TableEntry>)
    ensures |r| == |items| && forall i :: 0 <= i < |r| ==> r[i] == EntryOf(prefix, items[i])
  {
    seq(|items|, i requires 0 <= i < |items| => EntryOf(prefix, items[i]))
  }

  function Tables(prefix: Bytes, files: seq<seq<Bytes>>): (r: seq<seq<TableEntry>>)
    ensures |r| == |files| && forall f :: 0 <= f < |r| ==> r[f] == Table(prefix, files[f])
  {
    seq(|files|, f requires 0 <= f < |files| => Table(prefix, files[f]))
  }

  lemma {:induction false} TablesConcat(prefix: Bytes, files: seq<seq<Bytes>>)
    ensures Concat(Tables(prefix, files)) == Table(prefix, Concat(files))
  {
    hide EntryOf;
    if files != [] {
      var front := files[..|files| - 1];
      TablesConcat(prefix, front);
      assert Tables(prefix, files)[..|files| - 1] == Tables(prefix, front);
    }
  }

  /** No user key is in two tables. */
  ghost predicate TablesApart(tables: seq<seq<TableEntry>>) {
    forall f, g, i, j :: 0 <= f < g < |tables| && 0 <= i < |tables[f]| && 0 <= j < |tables[g]| ==>
      UserKey(tables[f][i]) != UserKey(tables[g][j])
  }

  /** A finished table was large enough, and none goes on past a change of user key once it is. */
  ghost predicate TablesCut(tables: seq<seq<TableEntry>>, size: seq<TableEntry> -> nat, limit: nat) {
    && (forall f :: 0 <= f < |tables| - 1 ==> size(tables[f]) >= limit)
    && (forall f :: 0 <= f < |tables| ==> TableCut(tables[f], size, limit))
  }

  ghost predicate TableCut(table: seq<TableEntry>, size: seq<TableEntry> -> nat, limit: nat) {
    forall p :: 1 <= p < |table| && UserKey(table[p - 1]) != UserKey(table[p]) ==> size(table[..p]) < limit
  }

  /** In the comparator's order and, which is the same, ascending in user keys with the newest of each first. */
  ghost predicate TableOrdered(entries: seq<TableEntry>) {
    forall i, j :: 0 <= i < j < |entries| ==>
      EntryNotAfter(entries[i], entries[j]) && NewestFirst(entries[i], entries[j])
  }

  lemma OrderedTable(prefix: Bytes, items: seq<Bytes>)
    requires AllItems(items) && InOrder(ItemLess, items)
    ensures TableOrdered(Table(prefix, items))
  {
    hide IsItem, NotAfter, EntryNotAfter, NewestFirst, EntryOf;
    forall i, j | 0 <= i < j < |items|
      ensures EntryNotAfter(EntryOf(prefix, items[i]), EntryOf(prefix, items[j]))
      ensures NewestFirst(EntryOf(prefix, items[i]), EntryOf(prefix, items[j]))
    {
      EntriesInOrder(prefix, items[i], items[j]);
    }
  }

  lemma ApartTables(prefix: Bytes, files: seq<seq<Bytes>>)
    requires KeysApart(files) && forall f :: 0 <= f < |files| ==> AllItems(files[f])
    ensures TablesApart(Tables(prefix, files))
  {
    hide IsItem, EntryOf, UserKey, KeyOf;
    var tables := Tables(prefix, files);
    forall f, g, i, j | 0 <= f < g < |tables| && 0 <= i < |tables[f]| && 0 <= j < |tables[g]|
      ensures UserKey(tables[f][i]) != UserKey(tables[g][j])
    {
      SameUserKey(prefix, files[f][i], files[g][j]);
      assert Holds(files[f], KeyOf(files[f][i])) && Holds(files[g], KeyOf(files[g][j]));
    }
  }

  lemma CutTables(prefix: Bytes, files: seq<seq<Bytes>>, size: seq<TableEntry> -> nat, limit: nat)
    requires CutAtSize(files, file => size(Table(prefix, file)), limit)
    requires forall f :: 0 <= f < |files| ==> AllItems(files[f])
    ensures TablesCut(Tables(prefix, files), size, limit)
  {
    hide CutFile, TableCut, AllItems, Table;
    forall f | 0 <= f < |files| ensures TableCut(Table(prefix, files[f]), size, limit) {
      CutTable(prefix, files[f], size, limit);
    }
  }

  lemma CutTable(prefix: Bytes, file: seq<Bytes>, size: seq<TableEntry> -> nat, limit: nat)
    requires CutFile(file, f => size(Table(prefix, f)), limit) && AllItems(file)
    ensures TableCut(Table(prefix, file), size, limit)
  {
    hide IsItem, EntryOf, UserKey, KeyOf;
    var table := Table(prefix, file);
    forall p | 1 <= p < |table| && UserKey(table[p - 1]) != UserKey(table[p]) ensures size(table[..p]) < limit {
      SameUserKey(prefix, file[p - 1], file[p]);
      assert table[..p] == Table(prefix, file[..p]);
    }
  }

  // ------------------------------------------------------------------ nothing lost, nothing added

  /** A sequence without the element at one position. */
  function Rest<T>(s: seq<T>, k: nat): seq<T>
    requires k < |s|
  {
    s[..k] + s[k + 1..]
  }

  lemma TakenOut<T>(s: seq<T>, k: nat)
    requires k < |s|
    ensures multiset(s) == multiset(Rest(s, k)) + multiset{s[k]}
  {
    assert s == s[..k] + [s[k]] + s[k + 1..];
  }

  lemma TableTakenOut(prefix: Bytes, s: seq<Bytes>, k: nat)
    requires k < |s|
    ensures Table(prefix, Rest(s, k)) == Rest(Table(prefix, s), k)
  {
    hide EntryOf;
  }

  /** The first element of one sequence, and what is left of both without it. */
  lemma Locate(a: seq<Bytes>, b: seq<Bytes>) returns (k: nat)
    requires multiset(a) == multiset(b) && a != []
    ensures k < |b| && b[k] == a[0] && multiset(Rest(a, 0)) == multiset(Rest(b, k))
  {
    hide Rest;
    assert a[0] in multiset(b);
    k :| 0 <= k < |b| && b[k] == a[0];
    TakenOut(a, 0);
    TakenOut(b, k);
    assert multiset(Rest(a, 0)) == multiset(a) - multiset{a[0]};
    assert multiset(Rest(b, k)) == multiset(b) - multiset{a[0]};
  }

  lemma {:induction false} TableCounts(prefix: Bytes, a: seq<Bytes>, b: seq<Bytes>)
    requires multiset(a) == multiset(b)
    ensures multiset(Table(prefix, a)) == multiset(Table(prefix, b))
    decreases |a|
  {
    hide EntryOf, Table;
    if a == [] {
      assert |b| == |multiset(b)| == 0;
    } else {
      var k := Locate(a, b);
      TableCounts(prefix, Rest(a, 0), Rest(b, k));
      TableTakenOut(prefix, a, 0);
      TableTakenOut(prefix, b, k);
      TakenOut(Table(prefix, a), 0);
      TakenOut(Table(prefix, b), k);
    }
  }

  function EntriesFor(prefix: Bytes, changes: seq<Change>): (r: seq<TableEntry>)
    ensures |r| == |changes| && forall i :: 0 <= i < |r| ==> r[i] == EntryFor(prefix, changes[i])
  {
    seq(|changes|, i requires 0 <= i < |changes| => EntryFor(prefix, changes[i]))
  }

  lemma TableOfTaken(prefix: Bytes, changes: seq<Change>)
    requires forall c :: c in changes ==> Fits(c)
    ensures Table(prefix, Items(changes)) == EntriesFor(prefix, changes) && AllItems(Items(changes))
  {
    hide Fits, EntryOf, EntryFor, Encoded;
    var items := Items(changes);
    forall i | 0 <= i < |changes|
      ensures IsItem(items[i]) && EntryOf(prefix, items[i]) == EntryFor(prefix, changes[i])
    {
      assert changes[i] in changes;
      EntryOfItem(prefix, changes[i]);
      assert Fits(changes[i]) && items[i] == Encoded(changes[i]);
    }
  }

  lemma SameItems(a: seq<Bytes>, b: seq<Bytes>)
    requires multiset(a) == multiset(b) && AllItems(b)
    ensures AllItems(a)
  {
    hide IsItem;
    forall i | 0 <= i < |a| ensures IsItem(a[i]) {
      assert a[i] in multiset(a);
      assert a[i] in b;
    }
  }

  lemma {:induction false} PartsOf(files: seq<seq<Bytes>>)
    requires AllItems(Concat(files))
    ensures forall f :: 0 <= f < |files| ==> AllItems(files[f])
  {
    hide IsItem;
    if files != [] {
      var front, last, all := files[..|files| - 1], files[|files| - 1], Concat(files);
      var n := |Concat(front)|;
      assert forall i :: 0 <= i < n ==> Concat(front)[i] == all[i];
      assert forall i :: 0 <= i < |last| ==> last[i] == all[n + i];
      PartsOf(front);
      assert forall f :: 0 <= f < |front| ==> front[f] == files[f];
    }
  }

  // ------------------------------------------------------------------ the whole conversion

  /** Whatever the chunk size and however the background jobs end: the tables together hold exactly one
      entry for every change that was taken, under the store's prefix and with its version, in the order
      of the database's comparator, which is by user key and the newest version of each first; no user
      key is in two tables, and tables are cut at the limit. */
  method ConvertStore(prefix: Bytes, events: seq<ConvertEvent>, maxChunkSize: int,
                      size: seq<TableEntry> -> nat, limit: nat)
    returns (tables: seq<seq<TableEntry>>)
    requires AllVersions(events)
    ensures multiset(Concat(tables)) == multiset(EntriesFor(prefix, Taken(events)))
    ensures TableOrdered(Concat(tables)) && TablesApart(tables) && TablesCut(tables, size, limit)
    ensures Taken(events) == [] ==> tables == []
  {
    hide InOrder, KeysApart, Grouped, Fed, StrictWeakOrder, Taken, SortEvents, AllItems, Fits, Table,
      TablesApart, TablesCut, TableOrdered, CutAtSize, Items, EntriesFor;
    if Taken(events) == [] {
      NoTables(size, limit);
      return [];
    }
    ItemLessIsStrictWeak();
    var sorted := ExternalSort(ItemLess, maxChunkSize, SortEvents(events));
    SortedIsGrouped(sorted);
    var files := SplitFiles(sorted, file => size(Table(prefix, file)), limit);
    tables := Tables(prefix, files);
    forall c | c in Taken(events) ensures Fits(c) { TakenFits(events, c); }
    FedIsTaken(events);
    TableOfTaken(prefix, Taken(events));
    TableCounts(prefix, sorted, Items(Taken(events)));
    SameItems(sorted, Items(Taken(events)));
    PartsOf(files);
    TablesConcat(prefix, files);
    OrderedTable(prefix, sorted);
    ApartTables(prefix, files);
    CutTables(prefix, files, size, limit);
  }

  lemma NoTables(size: seq<TableEntry> -> nat, limit: nat)
    ensures TableOrdered([]) && TablesApart([]) && TablesCut([], size, limit)
    ensures forall prefix :: EntriesFor(prefix, []) == []
  {
  }
}
