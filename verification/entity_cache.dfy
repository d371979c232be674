/**
 * Ordered sequences keyed by an integer: sortedness, key sets, insertion sort and the
 * merge-style difference of two sorted ranges. The visible-entity cache keeps its
 * records sorted by entity id and uses these to update them between frames.
 */
module SortedKeys {

  /** Keys never decrease along the sequence. */
  ghost predicate SortedBy<T>(xs: seq<T>, key: T -> int)
  {
    forall i, j :: 0 <= i < j < |xs| ==> key(xs[i]) <= key(xs[j])
  }

  /** Keys strictly increase along the sequence: sorted and no key twice. */
  ghost predicate StrictlySortedBy<T>(xs: seq<T>, key: T -> int)
  {
    forall i, j :: 0 <= i < j < |xs| ==> key(xs[i]) < key(xs[j])
  }

  /** No key occurs twice. */
  ghost predicate DistinctKeys<T>(xs: seq<T>, key: T -> int)
  {
    forall i, j :: 0 <= i < j < |xs| ==> key(xs[i]) != key(xs[j])
  }

  /** The keys that occur in the sequence. */
  function KeySet<T>(xs: seq<T>, key: T -> int): set<int>
  {
    set i | 0 <= i < |xs| :: key(xs[i])
  }

  /** Every element of `ys` occurs in `zs` when `ys`'s elements are among `zs`'s. */
  lemma ElementsAmong<T>(ys: seq<T>, zs: seq<T>)
    requires multiset(ys) <= multiset(zs)
    ensures forall i :: 0 <= i < |ys| ==> ys[i] in zs
  {
    forall i | 0 <= i < |ys|
      ensures ys[i] in zs
    {
      assert ys[i] in multiset(ys);
    }
  }

  /** Sequences holding the same elements have the same keys. */
  lemma SameElementsSameKeys<T>(a: seq<T>, b: seq<T>, key: T -> int)
    requires multiset(a) == multiset(b)
    ensures KeySet(a, key) == KeySet(b, key)
  {
    ElementsAmong(a, b);
    ElementsAmong(b, a);
    forall k | k in KeySet(a, key)
      ensures k in KeySet(b, key)
    {
      var i :| 0 <= i < |a| && key(a[i]) == k;
      var j :| 0 <= j < |b| && b[j] == a[i];
    }
    forall k | k in KeySet(b, key)
      ensures k in KeySet(a, key)
    {
      var j :| 0 <= j < |b| && key(b[j]) == k;
      var i :| 0 <= i < |a| && a[i] == b[j];
    }
  }

  lemma KeySetConcat<T>(xs: seq<T>, ys: seq<T>, key: T -> int)
    ensures KeySet(xs + ys, key) == KeySet(xs, key) + KeySet(ys, key)
  {
    var zs := xs + ys;
    forall k | k in KeySet(zs, key)
      ensures k in KeySet(xs, key) + KeySet(ys, key)
    {
      var i :| 0 <= i < |zs| && key(zs[i]) == k;
      if i >= |xs| {
        assert zs[i] == ys[i - |xs|];
      }
    }
    forall k | k in KeySet(ys, key)
      ensures k in KeySet(zs, key)
    {
      var i :| 0 <= i < |ys| && key(ys[i]) == k;
      assert zs[|xs| + i] == ys[i];
    }
    forall k | k in KeySet(xs, key)
      ensures k in KeySet(zs, key)
    {
      var i :| 0 <= i < |xs| && key(xs[i]) == k;
      assert zs[i] == xs[i];
    }
  }

  /** With no key twice, no element occurs twice. */
  lemma {:induction false} DistinctKeysOccurOnce<T>(xs: seq<T>, key: T -> int, x: T)
    requires DistinctKeys(xs, key)
    ensures multiset(xs)[x] <= 1
  {
    if |xs| > 0 {
      assert xs == [xs[0]] + xs[1..];
      assert DistinctKeys(xs[1..], key);
      DistinctKeysOccurOnce(xs[1..], key, x);
      if xs[0] == x {
        assert forall j :: 0 <= j < |xs[1..]| ==> xs[1..][j] != x by {
          assert forall j :: 0 <= j < |xs[1..]| ==> xs[1..][j] == xs[j + 1];
        }
        assert x !in multiset(xs[1..]);
      }
    }
  }

  lemma StrictlySortedIsDistinct<T>(xs: seq<T>, key: T -> int)
    requires StrictlySortedBy(xs, key)
    ensures DistinctKeys(xs, key)
  {
  }

  /** A key no larger than every key of a sorted sequence can go in front of it. */
  lemma SortedCons<T>(x: T, xs: seq<T>, key: T -> int)
    requires SortedBy(xs, key)
    requires forall i :: 0 <= i < |xs| ==> key(x) <= key(xs[i])
    ensures SortedBy([x] + xs, key)
  {
    var r := [x] + xs;
    forall i, j | 0 <= i < j < |r|
      ensures key(r[i]) <= key(r[j])
    {
      assert r[j] == xs[j - 1];
      if i > 0 {
        assert r[i] == xs[i - 1];
      }
    }
  }

  /** A key smaller than every key of a strictly sorted sequence can go in front of it. */
  lemma StrictCons<T>(x: T, xs: seq<T>, key: T -> int)
    requires StrictlySortedBy(xs, key)
    requires forall i :: 0 <= i < |xs| ==> key(x) < key(xs[i])
    ensures StrictlySortedBy([x] + xs, key)
  {
    var r := [x] + xs;
    forall i, j | 0 <= i < j < |r|
      ensures key(r[i]) < key(r[j])
    {
      assert r[j] == xs[j - 1];
      if i > 0 {
        assert r[i] == xs[i - 1];
      }
    }
  }

  /** Inserts `x` before the first element with a larger key. */
  function Insert<T>(x: T, xs: seq<T>, key: T -> int): (r: seq<T>)
    requires SortedBy(xs, key)
    ensures SortedBy(r, key)
    ensures multiset(r) == multiset(xs) + multiset{x}
  {
    if |xs| == 0 then [x]
    else if key(x) <= key(xs[0]) then [x] + xs
    else
      var rest := Insert(x, xs[1..], key);
      assert xs == [xs[0]] + xs[1..];
      assert forall i :: 0 <= i < |rest| ==> key(xs[0]) <= key(rest[i]) by {
        ElementsAmong(rest, xs[1..] + [x]);
        forall i | 0 <= i < |rest|
          ensures key(xs[0]) <= key(rest[i])
        {
          var j :| 0 <= j < |xs[1..] + [x]| && (xs[1..] + [x])[j] == rest[i];
          if j < |xs| - 1 {
            assert rest[i] == xs[j + 1];
          }
        }
      }
      SortedCons(xs[0], rest, key);
      [xs[0]] + rest
  }

  /** Inserting a key a strictly sorted sequence lacks keeps it strictly sorted. */
  lemma {:induction false} InsertStrict<T>(x: T, xs: seq<T>, key: T -> int)
    requires StrictlySortedBy(xs, key)
    requires forall i :: 0 <= i < |xs| ==> key(xs[i]) != key(x)
    ensures StrictlySortedBy(Insert(x, xs, key), key)
  {
    if |xs| > 0 && key(x) > key(xs[0]) {
      var rest := Insert(x, xs[1..], key);
      assert xs == [xs[0]] + xs[1..];
      InsertStrict(x, xs[1..], key);
      ElementsAmong(rest, xs[1..] + [x]);
      forall i | 0 <= i < |rest|
        ensures key(xs[0]) < key(rest[i])
      {
        var j :| 0 <= j < |xs[1..] + [x]| && (xs[1..] + [x])[j] == rest[i];
        if j < |xs| - 1 {
          assert rest[i] == xs[j + 1];
        }
      }
      StrictCons(xs[0], rest, key);
    }
  }

  /** Insertion sort: a sorted permutation of its input. */
  function SortBy<T>(xs: seq<T>, key: T -> int): (r: seq<T>)
    ensures SortedBy(r, key)
    ensures multiset(r) == multiset(xs)
    ensures |r| == |xs|
  {
    if |xs| == 0 then []
    else
      assert xs == [xs[0]] + xs[1..];
      var r := Insert(xs[0], SortBy(xs[1..], key), key);
      assert |r| == |multiset(r)|;
      r
  }

  /** A single element is already sorted. */
  lemma SortSingleton<T>(x: T, key: T -> int)
    ensures SortBy([x], key) == [x]
  {
    assert [x][1..] == [];
  }

  /** Two elements with increasing keys are already sorted. */
  lemma SortIncreasingPair<T>(x: T, y: T, key: T -> int)
    requires key(x) < key(y)
    ensures SortBy([x, y], key) == [x, y]
  {
    SortSingleton(y, key);
    assert [x, y][1..] == [y];
  }

  /** Sorting keeps the keys, and input without a repeated key comes out strictly increasing. */
  lemma SortByKeys<T>(xs: seq<T>, key: T -> int)
    ensures KeySet(SortBy(xs, key), key) == KeySet(xs, key)
    ensures DistinctKeys(xs, key) ==> StrictlySortedBy(SortBy(xs, key), key)
  {
    SameElementsSameKeys(SortBy(xs, key), xs, key);
    if DistinctKeys(xs, key) {
      SortByDistinctIsStrict(xs, key);
    }
  }

  lemma {:induction false} SortByDistinctIsStrict<T>(xs: seq<T>, key: T -> int)
    requires DistinctKeys(xs, key)
    ensures StrictlySortedBy(SortBy(xs, key), key)
  {
    if |xs| > 0 {
      var tail := xs[1..];
      assert DistinctKeys(tail, key) by {
        assert forall i :: 0 <= i < |tail| ==> tail[i] == xs[i + 1];
      }
      SortByDistinctIsStrict(tail, key);
      HeadKeyNotInSortedTail(xs, key);
      InsertStrict(xs[0], SortBy(tail, key), key);
    }
  }

  /** With no key twice, the head's key is not among the keys of the sorted tail. */
  lemma HeadKeyNotInSortedTail<T>(xs: seq<T>, key: T -> int)
    requires |xs| > 0 && DistinctKeys(xs, key)
    ensures forall i :: 0 <= i < |SortBy(xs[1..], key)| ==> key(SortBy(xs[1..], key)[i]) != key(xs[0])
  {
    var tail := xs[1..];
    var sorted := SortBy(tail, key);
    ElementsAmong(sorted, tail);
    forall i | 0 <= i < |sorted|
      ensures key(sorted[i]) != key(xs[0])
    {
      var j :| 0 <= j < |tail| && tail[j] == sorted[i];
      assert tail[j] == xs[j + 1];
    }
  }

  /** The elements of `xs` whose key is not in `excluded`, in order. */
  function FilterOut<T>(xs: seq<T>, key: T -> int, excluded: set<int>): (r: seq<T>)
    ensures forall i :: 0 <= i < |r| ==> r[i] in xs && key(r[i]) !in excluded
    ensures forall i :: 0 <= i < |xs| && key(xs[i]) !in excluded ==> xs[i] in r
  {
    if |xs| == 0 then []
    else
      var rest := FilterOut(xs[1..], key, excluded);
      assert xs == [xs[0]] + xs[1..];
      assert forall i :: 0 < i < |xs| ==> xs[i] == xs[1..][i - 1];
      if key(xs[0]) in excluded then rest else [xs[0]] + rest
  }

  /** Filtering removes exactly the excluded keys. */
  lemma FilterOutKeys<T>(xs: seq<T>, key: T -> int, excluded: set<int>)
    ensures KeySet(FilterOut(xs, key, excluded), key) == KeySet(xs, key) - excluded
  {
    var r := FilterOut(xs, key, excluded);
    forall k | k in KeySet(r, key)
      ensures k in KeySet(xs, key) - excluded
    {
      var i :| 0 <= i < |r| && key(r[i]) == k;
      var j :| 0 <= j < |xs| && xs[j] == r[i];
    }
    forall k | k in KeySet(xs, key) - excluded
      ensures k in KeySet(r, key)
    {
      var j :| 0 <= j < |xs| && key(xs[j]) == k;
      var i :| 0 <= i < |r| && r[i] == xs[j];
    }
  }

  /** Filtering keeps a strictly sorted sequence strictly sorted. */
  lemma {:induction false} FilterOutStrict<T>(xs: seq<T>, key: T -> int, excluded: set<int>)
    requires StrictlySortedBy(xs, key)
    ensures StrictlySortedBy(FilterOut(xs, key, excluded), key)
  {
    if |xs| > 0 {
      var rest := FilterOut(xs[1..], key, excluded);
      assert StrictlySortedBy(xs[1..], key);
      FilterOutStrict(xs[1..], key, excluded);
      forall i | 0 <= i < |rest|
        ensures key(xs[0]) < key(rest[i])
      {
        var j :| 0 <= j < |xs[1..]| && xs[1..][j] == rest[i];
        assert xs[1..][j] == xs[j + 1];
      }
      if key(xs[0]) !in excluded {
        StrictCons(xs[0], rest, key);
      }
    }
  }

  /**
   * The merge-based difference of two sorted ranges, step for step as the standard
   * library's `set_difference` walks them: equal keys cancel one for one.
   */
  function Difference<A, B>(xs: seq<A>, ys: seq<B>, kx: A -> int, ky: B -> int): (r: seq<A>)
    ensures multiset(r) <= multiset(xs)
    ensures |ys| == 0 ==> r == xs
    decreases |xs| + |ys|
  {
    if |xs| == 0 then []
    else if |ys| == 0 then xs
    else if kx(xs[0]) < ky(ys[0]) then
      assert xs == [xs[0]] + xs[1..];
      [xs[0]] + Difference(xs[1..], ys, kx, ky)
    else if ky(ys[0]) < kx(xs[0]) then Difference(xs, ys[1..], kx, ky)
    else
      assert xs == [xs[0]] + xs[1..];
      Difference(xs[1..], ys[1..], kx, ky)
  }

  lemma KeySetCons<T>(xs: seq<T>, key: T -> int)
    requires |xs| > 0
    ensures KeySet(xs, key) == KeySet(xs[1..], key) + {key(xs[0])}
  {
    assert forall i :: 0 <= i < |xs[1..]| ==> xs[1..][i] == xs[i + 1];
  }

  /**
   * On strictly sorted ranges the difference keeps exactly the elements of the first
   * range whose key the second range lacks.
   */
  lemma {:induction false} DifferenceIsFilter<A, B>(xs: seq<A>, ys: seq<B>, kx: A -> int, ky: B -> int)
    requires StrictlySortedBy(xs, kx) && StrictlySortedBy(ys, ky)
    ensures Difference(xs, ys, kx, ky) == FilterOut(xs, kx, KeySet(ys, ky))
    decreases |xs| + |ys|
  {
    if |xs| == 0 {
    } else if |ys| == 0 {
      assert KeySet(ys, ky) == {};
      FilterOutNothing(xs, kx, KeySet(ys, ky));
    } else {
      KeySetCons(ys, ky);
      assert StrictlySortedBy(xs[1..], kx);
      assert StrictlySortedBy(ys[1..], ky);
      if kx(xs[0]) < ky(ys[0]) {
        DifferenceIsFilter(xs[1..], ys, kx, ky);
        assert kx(xs[0]) !in KeySet(ys, ky) by {
          forall i | 0 <= i < |ys|
            ensures ky(ys[i]) != kx(xs[0])
          {
            assert ky(ys[0]) <= ky(ys[i]);
          }
        }
      } else if ky(ys[0]) < kx(xs[0]) {
        DifferenceIsFilter(xs, ys[1..], kx, ky);
        FilterOutIgnoresSmaller(xs, kx, KeySet(ys[1..], ky), ky(ys[0]));
      } else {
        DifferenceIsFilter(xs[1..], ys[1..], kx, ky);
        FilterOutIgnoresSmaller(xs[1..], kx, KeySet(ys[1..], ky), ky(ys[0]));
        assert ky(ys[0]) !in KeySet(ys[1..], ky);
        assert FilterOut(xs[1..], kx, KeySet(ys[1..], ky)) == FilterOut(xs[1..], kx, KeySet(ys, ky));
      }
    }
  }

  lemma {:induction false} FilterOutNothing<T>(xs: seq<T>, key: T -> int, excluded: set<int>)
    requires excluded == {}
    ensures FilterOut(xs, key, excluded) == xs
  {
    if |xs| > 0 {
      FilterOutNothing(xs[1..], key, excluded);
      assert xs == [xs[0]] + xs[1..];
    }
  }

  /** Adding a key smaller than every key of a strictly sorted range excludes nothing more. */
  lemma {:induction false} FilterOutIgnoresSmaller<T>(xs: seq<T>, key: T -> int, excluded: set<int>, k: int)
    requires StrictlySortedBy(xs, key)
    requires forall i :: 0 <= i < |xs| ==> k < key(xs[i])
    ensures FilterOut(xs, key, excluded + {k}) == FilterOut(xs, key, excluded)
  {
    if |xs| > 0 {
      FilterOutIgnoresSmaller(xs[1..], key, excluded, k);
    }
  }

  /** Two ranges with distinct keys each and no key in common concatenate to one with distinct keys. */
  lemma DistinctConcat<T>(xs: seq<T>, ys: seq<T>, key: T -> int)
    requires DistinctKeys(xs, key) && DistinctKeys(ys, key)
    requires KeySet(xs, key) !! KeySet(ys, key)
    ensures DistinctKeys(xs + ys, key)
    ensures KeySet(xs + ys, key) == KeySet(xs, key) + KeySet(ys, key)
  {
    KeySetConcat(xs, ys, key);
    var zs := xs + ys;
    forall i, j | 0 <= i < j < |zs|
      ensures key(zs[i]) != key(zs[j])
    {
      if i < |xs| && j >= |xs| {
        assert key(zs[i]) in KeySet(xs, key);
        assert key(zs[j]) == key(ys[j - |xs|]) && key(ys[j - |xs|]) in KeySet(ys, key);
      } else if i >= |xs| {
        assert zs[i] == ys[i - |xs|] && zs[j] == ys[j - |xs|];
      }
    }
  }
}

/**
 * The viewport's cache of per-entity facts for the entities visible this frame: the
 * records are kept sorted by entity id, refreshed when the visible set changes, and
 * patched in place by change notifications.
 */
module EntityCache {
  import opened Wrappers
  import opened SortedKeys

  type EntityId = nat
  /** An accent kind; its enumeration is not part of this model, beyond "none" being the default. */
  type Accent = nat
  const NoAccent: Accent := 0

  /** A world transform, kept as its matrix entries; only equality matters here. */
  datatype Transform = Transform(entries: seq<int>)

  datatype EntityData = EntityData(
    id: EntityId,
    worldFromLocal: Transform,
    accent: Accent,
    locked: bool,
    visible: bool,
    selected: bool,
    iconHidden: bool)

  /** What the editor answers about an entity at the moment it is asked. */
  datatype EntityFacts = EntityFacts(worldFromLocal: Transform, locked: bool, visible: bool, selected: bool, iconHidden: bool)

  /** The editor's current answers, for every entity. */
  type Query = EntityId -> EntityFacts

  datatype Cache = Cache(visibleIds: seq<EntityId>, prevVisibleIds: seq<EntityId>, datas: seq<EntityData>)

  const EmptyCache := Cache([], [], [])

  function IdOf(d: EntityData): int { d.id }
  function IdKey(id: EntityId): int { id }

  /** A fresh record for an entity, with the default accent. */
  function Record(query: Query, id: EntityId): (r: EntityData)
    ensures r.id == id && r.accent == NoAccent
  {
    var f := query(id);
    EntityData(id, f.worldFromLocal, NoAccent, f.locked, f.visible, f.selected, f.iconHidden)
  }

  function Fetch(query: Query, ids: seq<EntityId>): (r: seq<EntityData>)
    ensures |r| == |ids| && forall i :: 0 <= i < |ids| ==> r[i] == Record(query, ids[i])
  {
    if |ids| == 0 then [] else [Record(query, ids[0])] + Fetch(query, ids[1..])
  }

  lemma FetchKeys(query: Query, ids: seq<EntityId>)
    ensures KeySet(Fetch(query, ids), IdOf) == KeySet(ids, IdKey)
    ensures DistinctKeys(ids, IdKey) ==> DistinctKeys(Fetch(query, ids), IdOf)
  {
    var r := Fetch(query, ids);
    assert forall i :: 0 <= i < |ids| ==> IdOf(r[i]) == IdKey(ids[i]);
    forall k | k in KeySet(ids, IdKey)
      ensures k in KeySet(r, IdOf)
    {
      var i :| 0 <= i < |ids| && IdKey(ids[i]) == k;
      assert IdOf(r[i]) == k;
    }
  }

  /**
   * The per-frame refresh. An unchanged visible list leaves the cache alone; otherwise the
   * list is sorted, records of entities no longer visible are dropped, records for newly
   * visible entities are fetched, and the records are sorted again.
   */
  function CalculateVisibleEntityDatas(query: Query, cache: Cache, next: seq<EntityId>): (r: Cache)
    ensures next == cache.prevVisibleIds ==> r == cache
    ensures next != cache.prevVisibleIds ==> r.prevVisibleIds == next && multiset(r.visibleIds) == multiset(next)
    ensures next != cache.prevVisibleIds ==> SortedBy(r.datas, IdOf) && SortedBy(r.visibleIds, IdKey)
  {
    if next == cache.prevVisibleIds then cache
    else
      var sorted := SortBy(next, IdKey);
      Cache(sorted, next, Refreshed(query, cache.datas, sorted))
  }

  /**
   * The records after a change of the visible set: ids visible now but without a record
   * get a fetched one, records whose id is no longer visible are removed (a search of the
   * sorted removal list, modelled as membership in its key set), and the result is sorted.
   */
  function Refreshed(query: Query, datas: seq<EntityData>, sorted: seq<EntityId>): (r: seq<EntityData>)
    ensures SortedBy(r, IdOf)
  {
    var added := Difference(sorted, datas, IdKey, IdOf);
    var removed := Difference(datas, sorted, IdOf, IdKey);
    var kept := FilterOut(datas, IdOf, KeySet(removed, IdOf));
    SortBy(kept + Fetch(query, added), IdOf)
  }

  /**
   * With a strictly sorted cache and a visible list that names no entity twice, a refresh
   * leaves one record per visible entity, strictly sorted; records of entities that stay
   * visible are carried over untouched and every other record is freshly fetched.
   */
  lemma CalculateTracksVisibleSet(query: Query, cache: Cache, next: seq<EntityId>)
    requires StrictlySortedBy(cache.datas, IdOf) && DistinctKeys(next, IdKey)
    requires next != cache.prevVisibleIds
    ensures var r := CalculateVisibleEntityDatas(query, cache, next);
      && StrictlySortedBy(r.datas, IdOf)
      && KeySet(r.datas, IdOf) == KeySet(next, IdKey)
      && (forall i :: 0 <= i < |cache.datas| && cache.datas[i].id in KeySet(next, IdKey) ==> cache.datas[i] in r.datas)
      && (forall i :: 0 <= i < |r.datas| ==>
            r.datas[i] in cache.datas || (r.datas[i].id !in KeySet(cache.datas, IdOf) && r.datas[i] == Record(query, r.datas[i].id)))
  {
    var sorted := SortBy(next, IdKey);
    SortByKeys(next, IdKey);
    RefreshedKeys(query, cache.datas, sorted);
    RefreshedProvenance(query, cache.datas, sorted);
    RefreshedKeepsVisible(query, cache.datas, sorted);
  }

  /** A refresh of strictly sorted records against strictly sorted ids has exactly those ids, strictly sorted. */
  lemma RefreshedKeys(query: Query, datas: seq<EntityData>, sorted: seq<EntityId>)
    requires StrictlySortedBy(datas, IdOf) && StrictlySortedBy(sorted, IdKey)
    ensures StrictlySortedBy(Refreshed(query, datas, sorted), IdOf)
    ensures KeySet(Refreshed(query, datas, sorted), IdOf) == KeySet(sorted, IdKey)
  {
    var added := Difference(sorted, datas, IdKey, IdOf);
    var removed := Difference(datas, sorted, IdOf, IdKey);
    var kept := FilterOut(datas, IdOf, KeySet(removed, IdOf));
    var fetched := Fetch(query, added);
    RefreshParts(datas, sorted);
    FetchKeys(query, added);
    StrictlySortedIsDistinct(kept, IdOf);
    StrictlySortedIsDistinct(added, IdKey);
    DistinctConcat(kept, fetched, IdOf);
    SortByKeys(kept + fetched, IdOf);
  }

  /**
   * A permutation of carried-over records followed by records fetched for ids the cache
   * lacked holds only records of either kind.
   */
  lemma CarriedOrFetched(query: Query, datas: seq<EntityData>, kept: seq<EntityData>, added: seq<EntityId>, r: seq<EntityData>)
    requires forall i :: 0 <= i < |kept| ==> kept[i] in datas
    requires forall k :: 0 <= k < |added| ==> IdKey(added[k]) !in KeySet(datas, IdOf)
    requires multiset(r) == multiset(kept + Fetch(query, added))
    ensures forall i :: 0 <= i < |r| ==> r[i] in datas || (r[i].id !in KeySet(datas, IdOf) && r[i] == Record(query, r[i].id))
  {
    var fetched := Fetch(query, added);
    var all := kept + fetched;
    ElementsAmong(r, all);
    forall i | 0 <= i < |r|
      ensures r[i] in datas || (r[i].id !in KeySet(datas, IdOf) && r[i] == Record(query, r[i].id))
    {
      var j :| 0 <= j < |all| && all[j] == r[i];
      if j < |kept| {
        assert r[i] == kept[j];
      } else {
        assert r[i] == fetched[j - |kept|] == Record(query, added[j - |kept|]);
      }
    }
  }

  /** Every refreshed record is either carried over or freshly fetched for an entity that had none. */
  lemma RefreshedProvenance(query: Query, datas: seq<EntityData>, sorted: seq<EntityId>)
    requires StrictlySortedBy(datas, IdOf) && StrictlySortedBy(sorted, IdKey)
    ensures var r := Refreshed(query, datas, sorted);
      forall i :: 0 <= i < |r| ==> r[i] in datas || (r[i].id !in KeySet(datas, IdOf) && r[i] == Record(query, r[i].id))
  {
    var added := Difference(sorted, datas, IdKey, IdOf);
    var kept := FilterOut(datas, IdOf, KeySet(Difference(datas, sorted, IdOf, IdKey), IdOf));
    RefreshParts(datas, sorted);
    forall k | 0 <= k < |added|
      ensures IdKey(added[k]) !in KeySet(datas, IdOf)
    {
      assert IdKey(added[k]) in KeySet(added, IdKey);
    }
    CarriedOrFetched(query, datas, kept, added, Refreshed(query, datas, sorted));
  }

  /** A refresh carries over the record of every entity that stays visible. */
  lemma RefreshedKeepsVisible(query: Query, datas: seq<EntityData>, sorted: seq<EntityId>)
    requires StrictlySortedBy(datas, IdOf) && StrictlySortedBy(sorted, IdKey)
    ensures var r := Refreshed(query, datas, sorted);
      forall i :: 0 <= i < |datas| && datas[i].id in KeySet(sorted, IdKey) ==> datas[i] in r
  {
    var kept := FilterOut(datas, IdOf, KeySet(Difference(datas, sorted, IdOf, IdKey), IdOf));
    var all := kept + Fetch(query, Difference(sorted, datas, IdKey, IdOf));
    RefreshParts(datas, sorted);
    forall i | 0 <= i < |datas| && datas[i].id in KeySet(sorted, IdKey)
      ensures datas[i] in Refreshed(query, datas, sorted)
    {
      assert datas[i] in kept;
      assert datas[i] in multiset(all);
    }
  }

  /**
   * The three intermediate lists of a refresh, for strictly sorted records and ids: the
   * newly visible ids, and the records kept because their entity is still visible.
   */
  lemma RefreshParts(datas: seq<EntityData>, sorted: seq<EntityId>)
    requires StrictlySortedBy(datas, IdOf) && StrictlySortedBy(sorted, IdKey)
    ensures var added := Difference(sorted, datas, IdKey, IdOf);
      StrictlySortedBy(added, IdKey) && KeySet(added, IdKey) == KeySet(sorted, IdKey) - KeySet(datas, IdOf)
    ensures var kept := FilterOut(datas, IdOf, KeySet(Difference(datas, sorted, IdOf, IdKey), IdOf));
      && StrictlySortedBy(kept, IdOf)
      && KeySet(kept, IdOf) == KeySet(datas, IdOf) * KeySet(sorted, IdKey)
      && forall i :: 0 <= i < |datas| && datas[i].id in KeySet(sorted, IdKey) ==> datas[i] in kept
  {
    DifferenceIsFilter(sorted, datas, IdKey, IdOf);
    FilterOutKeys(sorted, IdKey, KeySet(datas, IdOf));
    FilterOutStrict(sorted, IdKey, KeySet(datas, IdOf));
    DifferenceIsFilter(datas, sorted, IdOf, IdKey);
    var removed := Difference(datas, sorted, IdOf, IdKey);
    FilterOutKeys(datas, IdOf, KeySet(sorted, IdKey));
    FilterOutKeys(datas, IdOf, KeySet(removed, IdOf));
    FilterOutStrict(datas, IdOf, KeySet(removed, IdOf));
    forall i | 0 <= i < |datas| && datas[i].id in KeySet(sorted, IdKey)
      ensures IdOf(datas[i]) !in KeySet(removed, IdOf)
    {
    }
  }

  /**
   * Index of the first record for `id`, by a binary search for the lower bound of `id` in
   * the sorted records, followed by a check that the record found carries that id.
   */
  method GetVisibleEntityIndexFromId(datas: seq<EntityData>, id: EntityId) returns (r: Option<nat>)
    requires SortedBy(datas, IdOf)
    ensures r == IndexOf(datas, id)
  {
    var lo, hi := 0, |datas|;
    while lo < hi
      invariant 0 <= lo <= hi <= |datas|
      invariant forall j :: 0 <= j < lo ==> datas[j].id < id
      invariant forall j :: hi <= j < |datas| ==> datas[j].id >= id
    {
      var mid := (lo + hi) / 2;
      assert IdOf(datas[mid]) == datas[mid].id;
      if datas[mid].id < id {
        lo := mid + 1;
      } else {
        hi := mid;
      }
    }
    if lo < |datas| && datas[lo].id == id {
      r := Some(lo);
    } else {
      r := None;
    }
    IndexOfUnique(datas, id, r);
  }

  /** The reference answer: the first position holding a record for `id`. */
  function IndexOf(datas: seq<EntityData>, id: EntityId): (r: Option<nat>)
    ensures r.Some? ==> r.value < |datas| && datas[r.value].id == id && forall j :: 0 <= j < r.value ==> datas[j].id != id
    ensures r.None? <==> forall j :: 0 <= j < |datas| ==> datas[j].id != id
  {
    if |datas| == 0 then None
    else if datas[0].id == id then Some(0)
    else match IndexOf(datas[1..], id)
      case None => None
      case Some(i) => Some(i + 1)
  }

  lemma IndexOfUnique(datas: seq<EntityData>, id: EntityId, r: Option<nat>)
    requires r.Some? ==> r.value < |datas| && datas[r.value].id == id && forall j :: 0 <= j < r.value ==> datas[j].id != id
    requires r.None? ==> forall j :: 0 <= j < |datas| ==> datas[j].id != id
    ensures r == IndexOf(datas, id)
  {
  }

  /** An entity can be picked in the viewport when it is visible and not locked. */
  function IsVisibleEntitySelectableInViewport(datas: seq<EntityData>, index: nat): bool
    requires index < |datas|
  {
    datas[index].visible && !datas[index].locked
  }

  /** The change notifications the cache listens to, each naming the entity it is about. */
  datatype Notification =
    | VisibilityChanged(entity: EntityId, visibility: bool)
    | LockChanged(entity: EntityId, isLocked: bool)
    | TransformChanged(entity: EntityId, world: Transform)
    | AccentTypeChanged(entity: EntityId, accentType: Accent)
    | Selected(entity: EntityId)
    | Deselected(entity: EntityId)
    | EntityIconChanged(entity: EntityId)

  /** The change one notification makes to the record it is about. */
  function Apply(query: Query, d: EntityData, n: Notification): (e: EntityData)
    ensures e.id == d.id
    ensures e.visible == (if n.VisibilityChanged? then n.visibility else d.visible)
    ensures e.locked == (if n.LockChanged? then n.isLocked else d.locked)
    ensures e.worldFromLocal == (if n.TransformChanged? then n.world else d.worldFromLocal)
    ensures e.accent == (if n.AccentTypeChanged? then n.accentType else d.accent)
    ensures e.selected == (if n.Selected? then true else if n.Deselected? then false else d.selected)
    ensures e.iconHidden == (if n.EntityIconChanged? then query(n.entity).iconHidden else d.iconHidden)
  {
    match n
    case VisibilityChanged(_, v) => d.(visible := v)
    case LockChanged(_, l) => d.(locked := l)
    case TransformChanged(_, w) => d.(worldFromLocal := w)
    case AccentTypeChanged(_, a) => d.(accent := a)
    case Selected(_) => d.(selected := true)
    case Deselected(_) => d.(selected := false)
    case EntityIconChanged(e) => d.(iconHidden := query(e).iconHidden)
  }

  /**
   * Handles a notification: the first record for its entity, if any, is updated; a
   * notification about an entity with no record is ignored.
   */
  function Handle(query: Query, datas: seq<EntityData>, n: Notification): (r: seq<EntityData>)
    ensures |r| == |datas|
    ensures forall i :: 0 <= i < |datas| ==> r[i].id == datas[i].id
    ensures IndexOf(datas, n.entity).None? ==> r == datas
    ensures IndexOf(datas, n.entity).Some? ==>
      forall i :: 0 <= i < |datas| && i != IndexOf(datas, n.entity).value ==> r[i] == datas[i]
    ensures IndexOf(datas, n.entity).Some? ==>
      r[IndexOf(datas, n.entity).value] == Apply(query, datas[IndexOf(datas, n.entity).value], n)
  {
    match IndexOf(datas, n.entity)
    case None => datas
    case Some(i) => datas[i := Apply(query, datas[i], n)]
  }

  /** Each notification sets its own field of the record it is about to the value it carries, and changes nothing else. */
  lemma HandleTouchesOneField(query: Query, datas: seq<EntityData>, n: Notification)
    requires IndexOf(datas, n.entity).Some?
    ensures var i := IndexOf(datas, n.entity).value; var d, e := datas[i], Handle(query, datas, n)[i];
      && e.id == d.id
      && (!n.VisibilityChanged? ==> e.visible == d.visible)
      && (!n.LockChanged? ==> e.locked == d.locked)
      && (!n.TransformChanged? ==> e.worldFromLocal == d.worldFromLocal)
      && (!n.AccentTypeChanged? ==> e.accent == d.accent)
      && (!n.Selected? && !n.Deselected? ==> e.selected == d.selected)
      && (!n.EntityIconChanged? ==> e.iconHidden == d.iconHidden)
      && (n.VisibilityChanged? ==> e.visible == n.visibility)
      && (n.LockChanged? ==> e.locked == n.isLocked)
      && (n.TransformChanged? ==> e.worldFromLocal == n.world)
      && (n.AccentTypeChanged? ==> e.accent == n.accentType)
      && (n.Selected? ==> e.selected)
      && (n.Deselected? ==> !e.selected)
      && (n.EntityIconChanged? ==> e.iconHidden == query(n.entity).iconHidden)
  {
  }

  /** Handlers never reorder or rename records, so the sort order the lookup relies on survives them. */
  lemma HandleKeepsOrder(query: Query, datas: seq<EntityData>, n: Notification)
    ensures SortedBy(datas, IdOf) ==> SortedBy(Handle(query, datas, n), IdOf)
    ensures StrictlySortedBy(datas, IdOf) ==> StrictlySortedBy(Handle(query, datas, n), IdOf)
    ensures KeySet(Handle(query, datas, n), IdOf) == KeySet(datas, IdOf)
  {
    var r := Handle(query, datas, n);
    assert forall i :: 0 <= i < |datas| ==> IdOf(r[i]) == IdOf(datas[i]);
  }

  /** Delivering the same notification twice has the effect of delivering it once. */
  lemma HandleIdempotent(query: Query, datas: seq<EntityData>, n: Notification)
    ensures Handle(query, Handle(query, datas, n), n) == Handle(query, datas, n)
  {
    var once := Handle(query, datas, n);
    assert forall j :: 0 <= j < |datas| ==> (once[j].id == n.entity <==> datas[j].id == n.entity);
    assert IndexOf(once, n.entity) == IndexOf(datas, n.entity) by {
      IndexOfUnique(once, n.entity, IndexOf(datas, n.entity));
    }
  }

  /** After a visibility or lock change the entity's selectability follows the new state. */
  lemma SelectableFollowsNotifications(query: Query, datas: seq<EntityData>, n: Notification)
    requires IndexOf(datas, n.entity).Some?
    ensures var i := IndexOf(datas, n.entity).value; var r := Handle(query, datas, n);
      && (n.VisibilityChanged? ==> IsVisibleEntitySelectableInViewport(r, i) == (n.visibility && !datas[i].locked))
      && (n.LockChanged? ==> IsVisibleEntitySelectableInViewport(r, i) == (datas[i].visible && !n.isLocked))
      && (!n.VisibilityChanged? && !n.LockChanged? ==>
            IsVisibleEntitySelectableInViewport(r, i) == IsVisibleEntitySelectableInViewport(datas, i))
  {
  }

  /** Refreshes every record from the editor, as the notification buses are silent during undo and redo. */
  function AfterUndoRedo(query: Query, datas: seq<EntityData>): (r: seq<EntityData>)
    ensures |r| == |datas|
    ensures forall i :: 0 <= i < |datas| ==> r[i].id == datas[i].id && r[i].accent == NoAccent
  {
    if |datas| == 0 then [] else [Record(query, datas[0].id)] + AfterUndoRedo(query, datas[1..])
  }

  /** A refresh discards whatever any notification had changed: it depends only on the ids. */
  lemma AfterUndoRedoForgetsNotifications(query: Query, datas: seq<EntityData>, n: Notification)
    ensures AfterUndoRedo(query, Handle(query, datas, n)) == AfterUndoRedo(query, datas)
  {
    AfterUndoRedoDependsOnIds(query, Handle(query, datas, n), datas);
  }

  lemma {:induction false} AfterUndoRedoDependsOnIds(query: Query, a: seq<EntityData>, b: seq<EntityData>)
    requires |a| == |b| && forall i :: 0 <= i < |a| ==> a[i].id == b[i].id
    ensures AfterUndoRedo(query, a) == AfterUndoRedo(query, b)
  {
    if |a| > 0 {
      AfterUndoRedoDependsOnIds(query, a[1..], b[1..]);
    }
  }

  /** A record is current when it equals what the editor answers now. */
  ghost predicate Current(query: Query, datas: seq<EntityData>)
  {
    forall i :: 0 <= i < |datas| ==> datas[i] == Record(query, datas[i].id)
  }

  /** After a refresh every record is current, so a second refresh changes nothing. */
  lemma {:induction false} AfterUndoRedoIsCurrent(query: Query, datas: seq<EntityData>)
    ensures Current(query, AfterUndoRedo(query, datas))
    ensures AfterUndoRedo(query, AfterUndoRedo(query, datas)) == AfterUndoRedo(query, datas)
  {
    if |datas| > 0 {
      AfterUndoRedoIsCurrent(query, datas[1..]);
      var r := AfterUndoRedo(query, datas);
      assert r[1..] == AfterUndoRedo(query, datas[1..]);
    }
  }

  /**
   * Adding entity ids by hand, as the code is written: the ids are appended to the visible
   * list and a record is fetched for every id of the whole accumulated list, not only for
   * the ids just added.
   */
  function AddEntityIds(query: Query, cache: Cache, ids: seq<EntityId>): (r: Cache)
    ensures r.visibleIds == cache.visibleIds + ids && r.prevVisibleIds == cache.prevVisibleIds
    ensures multiset(r.datas) == multiset(cache.datas) + multiset(Fetch(query, cache.visibleIds + ids))
    ensures SortedBy(r.datas, IdOf)
  {
    var visible := cache.visibleIds + ids;
    Cache(visible, cache.prevVisibleIds, SortBy(cache.datas + Fetch(query, visible), IdOf))
  }

  /**
   * Two additions to an empty cache leave two identical records for the first entity, so
   * the records no longer have one entry per entity.
   */
  lemma AddEntityIdsTwiceDuplicates(query: Query, a: EntityId, b: EntityId)
    ensures var c := AddEntityIds(query, AddEntityIds(query, EmptyCache, [a]), [b]);
      |c.datas| == 3 && multiset(c.datas)[Record(query, a)] >= 2 && !DistinctKeys(c.datas, IdOf)
  {
    var c := AddEntityIds(query, AddEntityIds(query, EmptyCache, [a]), [b]);
    TwoAdditionsRecords(query, a, b);
    assert |c.datas| == |multiset(c.datas)|;
    if DistinctKeys(c.datas, IdOf) {
      DistinctKeysOccurOnce(c.datas, IdOf, Record(query, a));
    }
  }

  /** The records two additions to an empty cache leave: the first entity's twice, the second's once. */
  lemma TwoAdditionsRecords(query: Query, a: EntityId, b: EntityId)
    ensures multiset(AddEntityIds(query, AddEntityIds(query, EmptyCache, [a]), [b]).datas)
      == multiset{Record(query, a), Record(query, a), Record(query, b)}
  {
    var c1 := AddEntityIds(query, EmptyCache, [a]);
    assert Fetch(query, [a]) == [Record(query, a)];
    assert c1.visibleIds + [b] == [a, b];
    assert Fetch(query, [a, b]) == [Record(query, a), Record(query, b)];
  }

  /**
   * The consequence of those duplicates at the next refresh: the visible list is reported
   * anew, the merge cancels only one of the first entity's two records, and the removal
   * then drops both, so a visible entity is left without any record.
   */
  lemma DuplicatesLoseRecordOnRefresh(query: Query, a: EntityId, b: EntityId)
    requires a < b
    ensures var c := AddEntityIds(query, AddEntityIds(query, EmptyCache, [a]), [b]);
      var r := CalculateVisibleEntityDatas(query, c, [a, b]);
      && r.visibleIds == [a, b]
      && r.datas == [Record(query, b)]
  {
    var ra, rb := Record(query, a), Record(query, b);
    TwoAdditionsInOrder(query, a, b);
    SortTwoIds(a, b);
    RefreshDropsDuplicated(query, ra, rb);
  }

  /** Two additions to an empty cache, the second id larger, leave the records in this order. */
  lemma TwoAdditionsInOrder(query: Query, a: EntityId, b: EntityId)
    requires a < b
    ensures var c := AddEntityIds(query, AddEntityIds(query, EmptyCache, [a]), [b]);
      c.datas == [Record(query, a), Record(query, a), Record(query, b)] && c.prevVisibleIds == []
  {
    var ra, rb := Record(query, a), Record(query, b);
    var c1 := AddEntityIds(query, EmptyCache, [a]);
    assert c1.datas == [ra] by {
      assert Fetch(query, [a]) == [ra];
      assert [ra][1..] == [];
    }
    assert c1.visibleIds + [b] == [a, b];
    assert Fetch(query, [a, b]) == [ra, rb];
    assert c1.datas + [ra, rb] == [ra, ra, rb];
    SortThreeRecords(ra, rb);
  }

  /** The refresh of `[x, x, y]` against the ids of `x` and `y` keeps only `y`'s record. */
  lemma RefreshDropsDuplicated(query: Query, x: EntityData, y: EntityData)
    requires x.id < y.id
    ensures Refreshed(query, [x, x, y], [x.id, y.id]) == [y]
  {
    NothingAdded(x, y);
    OneRemoved(x, y);
    assert KeySet([x], IdOf) == {x.id};
    KeptAfterRemoval(x, y);
    assert Fetch(query, []) == [];
    assert [y] + Fetch(query, []) == [y];
    SortSingleton(y, IdOf);
  }

  /** Both ids of `[x, y]` already have a record in `[x, x, y]`, so nothing is fetched. */
  lemma NothingAdded(x: EntityData, y: EntityData)
    requires x.id < y.id
    ensures Difference([x.id, y.id], [x, x, y], IdKey, IdOf) == []
  {
    assert Difference([y.id], [y], IdKey, IdOf) == [] by {
      assert [y.id][1..] == [] && [y][1..] == [];
    }
    assert Difference([y.id], [x, y], IdKey, IdOf) == [] by {
      assert [x, y][1..] == [y];
    }
    assert [x.id, y.id][1..] == [y.id] && [x, x, y][1..] == [x, y];
  }

  /** The merge cancels one of the two records of `x` against its id and reports the other for removal. */
  lemma OneRemoved(x: EntityData, y: EntityData)
    requires x.id < y.id
    ensures Difference([x, x, y], [x.id, y.id], IdOf, IdKey) == [x]
  {
    assert Difference([y], [y.id], IdOf, IdKey) == [] by {
      assert [y.id][1..] == [] && [y][1..] == [];
    }
    assert Difference([x, y], [y.id], IdOf, IdKey) == [x] by {
      assert [x, y][1..] == [y];
    }
    assert [x.id, y.id][1..] == [y.id] && [x, x, y][1..] == [x, y];
  }

  /** Removing the id of `x` drops both of its records. */
  lemma KeptAfterRemoval(x: EntityData, y: EntityData)
    requires x.id < y.id
    ensures FilterOut([x, x, y], IdOf, {x.id}) == [y]
  {
    assert FilterOut([y], IdOf, {x.id}) == [y] by {
      assert [y][1..] == [];
    }
    assert FilterOut([x, y], IdOf, {x.id}) == [y] by {
      assert [x, y][1..] == [y];
    }
    assert [x, x, y][1..] == [x, y];
  }

  /** Sorting one record twice and a later one once keeps that order. */
  lemma SortThreeRecords(x: EntityData, y: EntityData)
    requires x.id < y.id
    ensures SortBy([x, x, y], IdOf) == [x, x, y]
  {
    SortIncreasingPair(x, y, IdOf);
    assert [x, x, y][1..] == [x, y];
    assert Insert(x, [x, y], IdOf) == [x, x, y];
  }

  /** Sorting two increasing ids keeps them in place. */
  lemma SortTwoIds(a: EntityId, b: EntityId)
    requires a < b
    ensures SortBy([a, b], IdKey) == [a, b]
  {
    SortIncreasingPair(a, b, IdKey);
  }

  /** Adding entity ids with a record fetched for each added id only. */
  function AddEntityIdsFetchingNew(query: Query, cache: Cache, ids: seq<EntityId>): (r: Cache)
    ensures r.visibleIds == cache.visibleIds + ids && r.prevVisibleIds == cache.prevVisibleIds
    ensures multiset(r.datas) == multiset(cache.datas) + multiset(Fetch(query, ids))
    ensures SortedBy(r.datas, IdOf)
  {
    Cache(cache.visibleIds + ids, cache.prevVisibleIds, SortBy(cache.datas + Fetch(query, ids), IdOf))
  }

  /** Fetching only the added ids keeps one record per entity when the ids are new and distinct. */
  lemma AddingNewIdsKeepsOneRecordEach(query: Query, cache: Cache, ids: seq<EntityId>)
    requires StrictlySortedBy(cache.datas, IdOf) && DistinctKeys(ids, IdKey)
    requires KeySet(cache.datas, IdOf) !! KeySet(ids, IdKey)
    ensures var r := AddEntityIdsFetchingNew(query, cache, ids);
      StrictlySortedBy(r.datas, IdOf) && KeySet(r.datas, IdOf) == KeySet(cache.datas, IdOf) + KeySet(ids, IdKey)
  {
    FetchKeys(query, ids);
    StrictlySortedIsDistinct(cache.datas, IdOf);
    DistinctConcat(cache.datas, Fetch(query, ids), IdOf);
    SortByKeys(cache.datas + Fetch(query, ids), IdOf);
  }
}
