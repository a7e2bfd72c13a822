/** The window of recent versions kept for historical queries. */
module QueryCache {
  import opened Bytes

  const DEFAULT_SNAPSHOT_INTERVAL: nat := 1000

  /** The number of versions kept: the query limit, at most the snapshot interval, plus the current one. */
  function CacheLimit(snapshotInterval: nat, queryLimit: int): (limit: nat)
    ensures limit >= 2
    ensures 0 < queryLimit <= snapshotInterval ==> limit == queryLimit + 1
    ensures snapshotInterval > 0 && (queryLimit <= 0 || queryLimit > snapshotInterval) ==> limit == snapshotInterval + 1
    ensures snapshotInterval == 0 && 0 < queryLimit <= 1000 ==> limit == queryLimit + 1
    ensures snapshotInterval == 0 && (queryLimit <= 0 || queryLimit > 1000) ==> limit == 1001
  {
    var interval := if snapshotInterval == 0 then DEFAULT_SNAPSHOT_INTERVAL else snapshotInterval;
    (if queryLimit <= 0 || queryLimit > interval then interval else queryLimit) + 1
  }

  // ------------------------------------------------------------------ windows of versions

  predicate Sorted(s: seq<int>) { forall i, j :: 0 <= i < j < |s| ==> s[i] < s[j] }

  /** `versions` lists the `limit` largest of `added` in order: fewer only if nothing was left out. */
  ghost predicate IsWindow(versions: seq<int>, added: set<int>, limit: nat) {
    && Sorted(versions) && |versions| <= limit
    && (forall v :: v in versions ==> v in added)
    && forall v :: v in added && v !in versions ==> |versions| == limit && forall w :: w in versions ==> v < w
  }

  ghost function Newer(added: set<int>, version: int): set<int> { set v | v in added && v > version }

  ghost function Elements(s: seq<int>): set<int> {
    if s == [] then {} else Elements(s[..|s| - 1]) + {s[|s| - 1]}
  }

  lemma {:induction false} ElementsOf(s: seq<int>, v: int)
    ensures v in Elements(s) <==> v in s
  {
    if s != [] {
      ElementsOf(s[..|s| - 1], v);
      assert s == s[..|s| - 1] + [s[|s| - 1]];
    }
  }

  lemma {:induction false} ElementsCount(s: seq<int>)
    requires Sorted(s)
    ensures |Elements(s)| == |s|
  {
    if s != [] {
      ElementsCount(s[..|s| - 1]);
      ElementsOf(s[..|s| - 1], s[|s| - 1]);
    }
  }

  /** An added version is in the window exactly while fewer than `limit` newer ones have been added. */
  lemma InWindowIff(versions: seq<int>, added: set<int>, limit: nat, version: int)
    requires IsWindow(versions, added, limit) && version in added
    ensures version in versions <==> |Newer(added, version)| < limit
  {
    ElementsCount(versions);
    var listed := Elements(versions);
    forall v ensures v in listed <==> v in versions { ElementsOf(versions, v); }
    if version in versions {
      assert Newer(added, version) <= listed - {version};
      SubsetSize(Newer(added, version), listed - {version});
    } else {
      assert listed <= Newer(added, version);
      SubsetSize(listed, Newer(added, version));
    }
  }

  lemma SubsetSize(a: set<int>, b: set<int>)
    requires a <= b
    ensures |a| <= |b|
  {
    assert b == a + (b - a) && a * (b - a) == {};
  }

  /** A larger window follows from its versions: two windows of one set are the same. */
  lemma WindowUnique(s: seq<int>, t: seq<int>, added: set<int>, limit: nat)
    requires IsWindow(s, added, limit) && IsWindow(t, added, limit)
    ensures s == t
  {
    forall v ensures v in s <==> v in t {
      if v in added {
        InWindowIff(s, added, limit, v);
        InWindowIff(t, added, limit, v);
      }
    }
    SortedUnique(s, t);
  }

  lemma {:induction false} SortedUnique(s: seq<int>, t: seq<int>)
    requires Sorted(s) && Sorted(t) && forall v :: v in s <==> v in t
    ensures s == t
  {
    assert (s != [] ==> s[0] in s) && (t != [] ==> t[0] in t);
    if s != [] {
      hide Sorted;
      SortedFront(s);
      SortedFront(t);
      var front, x, rest, y := s[..|s| - 1], s[|s| - 1], t[..|t| - 1], t[|t| - 1];
      assert x in s && y in t;
      forall v ensures v in front <==> v in rest {
        assert v in s <==> v == x || v in front;
        assert v in t <==> v == y || v in rest;
      }
      SortedUnique(front, rest);
    }
  }

  lemma SortedFront(s: seq<int>)
    requires Sorted(s) && s != []
    ensures var front, last := s[..|s| - 1], s[|s| - 1];
      && Sorted(front) && s == front + [last]
      && (forall v :: v in s <==> v == last || v in front) && (forall v :: v in front ==> v < last)
  {
  }

  // ------------------------------------------------------------------ the cache

  /** The cache holds the window of what was added, with the trees first added, and knows the latest. */
  ghost predicate Consistent<T(!new)>(limit: nat, versions: seq<int>, entries: map<int, T>, latest: int,
                                      added: map<int, T>)
  {
    && IsWindow(versions, added.Keys, limit)
    && Listed(versions, entries) && Within(entries, added)
    && (forall v :: v in added ==> 0 < v <= latest)
    && (if |added| == 0 then latest == 0 else latest in versions)
  }

  datatype Miss = NotPublished | NotFound | NotReady

  class Cache<T(!new)> {
    const limit: nat
    var entries: map<int, T>
    var versions: seq<int>
    var latest: int
    var exporter: Option<(int, T)>
    /** Every version added since the last reset, with the trees it was first added with. */
    ghost var added: map<int, T>

    ghost predicate Valid()
      reads this
    {
      limit >= 1 && Consistent(limit, versions, entries, latest, added)
    }

    constructor (limit: nat)
      requires limit >= 1
      ensures Valid() && added == map[] && exporter == None && this.limit == limit
    {
      this.limit := limit;
      entries, versions, latest, exporter, added := map[], [], 0, None, map[];
    }

    method Reset()
      requires Valid()
      modifies this
      ensures Valid() && added == map[] && exporter == None
    {
      entries, versions, latest, exporter, added := map[], [], 0, None, map[];
    }

    /** `sort.Search`: the first version not below the given one. */
    method Search(version: int) returns (index: nat)
      requires Sorted(versions)
      ensures index <= |versions|
      ensures forall i :: 0 <= i < index ==> versions[i] < version
      ensures forall i :: index <= i < |versions| ==> versions[i] >= version
    {
      var low, high := 0, |versions|;
      while low < high
        invariant 0 <= low <= high <= |versions|
        invariant forall i :: 0 <= i < low ==> versions[i] < version
        invariant forall i :: high <= i < |versions| ==> versions[i] >= version
      {
        var mid := (low + high) / 2;
        if versions[mid] < version { low := mid + 1; } else { high := mid; }
      }
      index := low;
    }

    /** Inserts a version in order; one that is there already changes nothing. */
    method InsertVersion(version: int)
      requires Sorted(versions)
      modifies this`versions
      ensures InsertedInto(old(versions), version, versions)
    {
      var n := |versions|;
      if n == 0 || version > versions[n - 1] {
        InsertsAt(versions, n, version);
        assert versions[..n] + [version] + versions[n..] == versions + [version];
        versions := versions + [version];
        return;
      }
      if version == versions[n - 1] { return; }
      var index := Search(version);
      if index < n && versions[index] == version { return; }
      InsertsAt(versions, index, version);
      versions := versions[..index] + [version] + versions[index..];
    }

    /** Drops the oldest versions until the limit holds. */
    method PruneHistoricalTrees()
      requires Sorted(versions) && Listed(versions, entries)
      modifies this`versions, this`entries
      ensures Trimmed(limit, old(versions), versions) && Listed(versions, entries) && Within(entries, old(entries))
    {
      hide Listed, Within, Sorted;
      WithinSelf(entries);
      while |versions| > limit
        invariant |versions| <= |old(versions)| && versions == old(versions)[|old(versions)| - |versions|..]
        invariant |old(versions)| <= limit ==> |versions| == |old(versions)|
        invariant |old(versions)| > limit ==> |versions| >= limit
        invariant Sorted(versions) && Listed(versions, entries) && Within(entries, old(entries))
      {
        var version := versions[0];
        DropOldest(versions, entries, old(entries));
        versions := versions[1..];
        entries := entries - {version};
      }
    }

    /** Adds a version, once; what remains is the window of everything added. */
    method AddHistoricalVersion(version: int, trees: T)
      requires Valid()
      modifies this
      ensures Valid() && exporter == old(exporter)
      ensures added == FirstAdded(old(added), version, trees)
      ensures latest == if version > old(latest) then version else old(latest)
    {
      hide Consistent, Sorted, InsertedInto, Trimmed, Listed, Within, FirstAdded;
      EntriesListed(limit, versions, entries, latest, added, version, trees);
      if version <= 0 { return; }
      if version in entries { return; }
      ghost var before, was := versions, entries;
      entries := entries[version := trees];
      InsertVersion(version);
      ghost var inserted := versions;
      InsertedListed(before, was, version, trees, inserted);
      PruneHistoricalTrees();
      AddKeeps(limit, before, was, latest, added, version, trees, inserted, versions, entries);
      if version > latest { latest := version; }
      added := FirstAdded(added, version, trees);
    }

    /** A version is served exactly while it is in the window, or held by the snapshot exporter. */
    method GetHistoricalTrees(version: int) returns (trees: Option<T>, latestSeen: int)
      requires Valid()
      ensures latestSeen == latest
      ensures version in added && |Newer(added.Keys, version)| < limit ==> trees == Some(added[version])
      ensures version in added && |Newer(added.Keys, version)| >= limit ==>
        trees == if exporter.Some? && exporter.value.0 == version then Some(exporter.value.1) else None
      ensures |added| != 0 && version == latest ==> latest in added && trees == Some(added[latest])
      ensures version !in added ==>
        trees == if exporter.Some? && exporter.value.0 == version then Some(exporter.value.1) else None
    {
      if version in added { InWindowIff(versions, added.Keys, limit, version); }
      if version !in entries {
        if exporter.Some? && exporter.value.0 == version { return Some(exporter.value.1), latest; }
        return None, latest;
      }
      return Some(entries[version]), latest;
    }

    method SetSnapshotExporter(version: int, trees: T) returns (ok: bool)
      requires Valid()
      modifies this`exporter
      ensures Valid() && ok == (version > 0 && old(exporter).None?)
      ensures exporter == if ok then Some((version, trees)) else old(exporter)
    {
      if version <= 0 || exporter.Some? { return false; }
      exporter := Some((version, trees));
      return true;
    }

    method PurgeSnapshotExporter(version: int)
      requires Valid()
      modifies this`exporter
      ensures Valid()
      ensures exporter == if old(exporter).Some? && old(exporter).value.0 == version then None else old(exporter)
    {
      if exporter.Some? && exporter.value.0 == version { exporter := None; }
    }
  }

  /** Judges a miss by the newest version the cache had when it was asked. */
  function ClassifyMiss(version: int, latest: int, limit: nat): Miss {
    if version > latest then NotPublished
    else if latest - version >= limit then NotFound
    else NotReady
  }

  ghost function Between(added: set<int>, low: int, high: int): set<int> { set v | v in added && low < v <= high }

  lemma {:induction false} BetweenSize(added: set<int>, low: int, high: int)
    requires low <= high
    ensures |Between(added, low, high)| <= high - low
    decreases high - low
  {
    if low < high {
      BetweenSize(added, low, high - 1);
      var fewer := Between(added, low, high - 1);
      assert Between(added, low, high) <= fewer + {high};
      SubsetSize(Between(added, low, high), fewer + {high});
    } else {
      assert Between(added, low, high) == {};
    }
  }

  /** A miss is called "not published" exactly above the newest version, and "not ready" exactly for one of the
      last `limit` versions up to it: one that was never added, and would be served as soon as it is. A version
      that was published and then left the window is always reported as not found. */
  lemma MissesAreClassified(versions: seq<int>, added: set<int>, limit: nat, latest: int, version: int)
    requires IsWindow(versions, added, limit) && version !in versions
    requires forall v :: v in added ==> v <= latest
    ensures ClassifyMiss(version, latest, limit) == NotPublished <==> version > latest
    ensures ClassifyMiss(version, latest, limit) == NotReady <==> latest - limit < version <= latest
    ensures version in added ==> ClassifyMiss(version, latest, limit) == NotFound
    ensures ClassifyMiss(version, latest, limit) == NotReady ==>
      version !in added && |Newer(added, version)| < limit
  {
    if version <= latest {
      BetweenSize(added, version, latest);
      assert Newer(added, version) == Between(added, version, latest);
    }
    if version in added { InWindowIff(versions, added, limit, version); }
  }

  /** The first version the background backfill loads: as many as the window holds, but not before the
      initial height. */
  function BackfillStart(latest: nat, limit: nat, initialVersion: nat): nat {
    var start := if latest > limit then latest - limit + 1 else 1;
    if initialVersion > 1 && start < initialVersion - 1 then initialVersion - 1 else start
  }

  /** The backfill is for the last `limit` versions, and with an initial height for none before the one below it. */
  lemma BackfillWindow(latest: nat, limit: nat, initialVersion: nat, version: int)
    ensures version >= BackfillStart(latest, limit, initialVersion)
       <==> version >= 1 && version > latest - limit && (initialVersion > 1 ==> version >= initialVersion - 1)
  {
  }

  /** Nothing is backfilled in vain: while `latest` is the newest version, every version from the start of
      the backfill on stays in the window once it is added. */
  lemma BackfillIsServed(versions: seq<int>, added: set<int>, limit: nat, latest: nat, initialVersion: nat,
                         version: int)
    requires IsWindow(versions, added, limit) && limit >= 1 && forall v :: v in added ==> v <= latest
    requires version in added && version >= BackfillStart(latest, limit, initialVersion)
    ensures version in versions
  {
    InWindowIff(versions, added, limit, version);
    BetweenSize(added, version, latest);
    assert Newer(added, version) == Between(added, version, latest);
  }

  /** A version that was the latest stays served until `limit` newer ones have been added. */
  lemma LatestStaysServed(earlier: set<int>, latest: int, versions: seq<int>, now: set<int>, limit: nat)
    requires latest in earlier && earlier <= now && forall v :: v in earlier ==> v <= latest
    requires IsWindow(versions, now, limit)
    ensures latest in versions <==> |Newer(now, latest)| < limit
    ensures Newer(now, latest) <= now - earlier
  {
    InWindowIff(versions, now, limit, latest);
  }

  lemma SortedJoin(a: seq<int>, b: seq<int>)
    requires Sorted(a) && Sorted(b) && forall i, j :: 0 <= i < |a| && 0 <= j < |b| ==> a[i] < b[j]
    ensures Sorted(a + b)
  {
  }

  lemma InsertsAt(s: seq<int>, index: nat, version: int)
    requires Sorted(s) && index <= |s|
    requires forall i :: 0 <= i < index ==> s[i] < version
    requires forall i :: index <= i < |s| ==> s[i] > version
    ensures var r := s[..index] + [version] + s[index..];
      Sorted(r) && |r| == |s| + 1 && forall v :: v in r <==> v in s || v == version
  {
    var a, b := s[..index], s[index..];
    assert s == a + b;
    SortedJoin(a, [version]);
    SortedJoin(a + [version], b);
  }

  lemma WindowAdds(versions: seq<int>, added: set<int>, limit: nat, version: int, inserted: seq<int>, result: seq<int>)
    requires IsWindow(versions, added, limit) && version !in versions
    requires Sorted(inserted) && |inserted| == |versions| + 1
    requires forall v :: v in inserted <==> v in versions || v == version
    requires result == if |inserted| <= limit then inserted else inserted[1..]
    ensures IsWindow(result, added + {version}, limit)
    ensures version in added ==> version !in result
  {
    if |inserted| > limit {
      var d := inserted[0];
      assert inserted == [d] + result;
      assert d !in result && forall w :: w in result ==> d < w;
      forall v, w | v in added + {version} && v !in result && w in result ensures v < w {
        if v != d {
          assert v !in inserted && v in added && v !in versions;
          assert d in inserted && w in inserted;
        }
      }
      assert version in inserted && (d == version || d < version);
    }
  }

  lemma GreatestStays(inserted: seq<int>, result: seq<int>, limit: nat, greatest: int)
    requires Sorted(inserted) && limit >= 1 && greatest in inserted && forall v :: v in inserted ==> v <= greatest
    requires result == if |inserted| <= limit then inserted else inserted[|inserted| - limit..]
    ensures greatest in result
  {
    var i :| 0 <= i < |inserted| && inserted[i] == greatest;
    assert inserted[|inserted| - 1] in inserted;
    assert i == |inserted| - 1;
    assert result[|result| - 1] == greatest;
  }

  /** The list names exactly the cached versions. */
  ghost predicate Listed<T(!new)>(versions: seq<int>, entries: map<int, T>) {
    forall v :: v in versions <==> v in entries
  }

  ghost predicate Within<T(!new)>(entries: map<int, T>, larger: map<int, T>) {
    forall v :: v in entries ==> v in larger && entries[v] == larger[v]
  }

  ghost predicate InsertedInto(before: seq<int>, version: int, after: seq<int>) {
    && Sorted(after) && (forall v :: v in after <==> v in before || v == version)
    && |after| == if version in before then |before| else |before| + 1
  }

  /** The newest ones, as many as the limit allows. */
  ghost predicate Trimmed(limit: nat, before: seq<int>, after: seq<int>) {
    after == if |before| <= limit then before else before[|before| - limit..]
  }

  lemma WithinSelf<T(!new)>(entries: map<int, T>)
    ensures Within(entries, entries)
  {
  }

  lemma DropOldest<T(!new)>(versions: seq<int>, entries: map<int, T>, larger: map<int, T>)
    requires versions != [] && Sorted(versions) && Listed(versions, entries) && Within(entries, larger)
    ensures Sorted(versions[1..]) && Listed(versions[1..], entries - {versions[0]})
    ensures Within(entries - {versions[0]}, larger)
  {
    assert versions == [versions[0]] + versions[1..];
    assert versions[0] !in versions[1..];
  }

  lemma EntriesListed<T(!new)>(limit: nat, versions: seq<int>, entries: map<int, T>, latest: int, added: map<int, T>,
                               version: int, trees: T)
    requires Consistent(limit, versions, entries, latest, added)
    ensures Sorted(versions) && Listed(versions, entries) && |versions| <= limit
    ensures forall v :: v in versions ==> v <= latest
    ensures version in entries || version <= 0 ==> version <= latest && FirstAdded(added, version, trees) == added
  {
    if |added| == 0 { assert added.Keys == {}; }
  }

  lemma InsertedListed<T(!new)>(versions: seq<int>, entries: map<int, T>, version: int, trees: T, inserted: seq<int>)
    requires Listed(versions, entries) && InsertedInto(versions, version, inserted)
    ensures Sorted(inserted) && Listed(inserted, entries[version := trees])
  {
  }

  lemma AddKeeps<T(!new)>(limit: nat, versions: seq<int>, entries: map<int, T>, latest: int, added: map<int, T>,
                          version: int, trees: T, inserted: seq<int>, versions': seq<int>, entries': map<int, T>)
    requires limit >= 1 && Consistent(limit, versions, entries, latest, added) && version > 0 && version !in entries
    requires InsertedInto(versions, version, inserted) && Trimmed(limit, inserted, versions')
    requires Listed(versions', entries') && Within(entries', entries[version := trees])
    ensures Consistent(limit, versions', entries', if version > latest then version else latest,
              FirstAdded(added, version, trees))
  {
    hide IsWindow, Sorted, Within;
    EntriesListed(limit, versions, entries, latest, added, version, trees);
    var latest' := if version > latest then version else latest;
    WindowAdds(versions, added.Keys, limit, version, inserted, versions');
    var added' := FirstAdded(added, version, trees);
    assert added'.Keys == added.Keys + {version};
    GreatestStays(inserted, versions', limit, latest');
    WithinAdded(entries, added, version, trees, entries');
  }

  lemma WithinAdded<T(!new)>(entries: map<int, T>, added: map<int, T>, version: int, trees: T, entries': map<int, T>)
    requires Within(entries, added) && Within(entries', entries[version := trees])
    requires version in added ==> version !in entries'
    ensures version > 0 ==> Within(entries', FirstAdded(added, version, trees))
  {
  }

  /** A version counts as added the first time it is, if it is positive. */
  ghost function FirstAdded<T>(added: map<int, T>, version: int, trees: T): map<int, T> {
    if version <= 0 || version in added then added else added[version := trees]
  }

  // ------------------------------------------------------------------ every run

  datatype CacheEvent<T> = Add(version: int, trees: T) | Clear

  /** What has been added since the last reset. */
  ghost function Added<T>(events: seq<CacheEvent<T>>): map<int, T> {
    if events == [] then map[]
    else
      match events[|events| - 1]
      case Add(version, trees) => FirstAdded(Added(events[..|events| - 1]), version, trees)
      case Clear => map[]
  }

  /** However commits and backfill interleave, the cache ends up with the window of what was added
      since the last reset, and serves its latest version. */
  method Run<T(!new)>(limit: nat, events: seq<CacheEvent<T>>) returns (cache: Cache<T>)
    requires limit >= 1
    ensures cache.Valid() && cache.limit == limit && cache.added == Added(events) && cache.exporter == None
    ensures IsWindow(cache.versions, Added(events).Keys, limit)
  {
    hide IsWindow;
    cache := new Cache(limit);
    assert events[..0] == [];
    for i := 0 to |events|
      invariant fresh(cache) && cache.Valid() && cache.limit == limit && cache.added == Added(events[..i])
      invariant cache.exporter == None
    {
      assert events[..i + 1][..i] == events[..i];
      match events[i]
      case Add(version, trees) => cache.AddHistoricalVersion(version, trees);
      case Clear => cache.Reset();
    }
    assert events[..|events|] == events;
  }
}
