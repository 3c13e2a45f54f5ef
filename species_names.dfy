// loadSpeciesNames: merge cached names into the page's names, fetch the
// missing ones (two attempts each, `#id` as the last resort) and save.

module SpeciesNames {
  import opened Wrappers
  import opened Decimal
  import opened Storage

  /** Attempt `a` of fetchSpeciesName(id): `None` when it throws. */
  type NameFetch = (int, nat) -> Option<string>

  /** `names[id]` is truthy: present and not the empty string. */
  predicate Named(names: map<int, string>, id: int) {
    id in names && names[id] != ""
  }

  /** The ids without a truthy name, in order. */
  function Missing(ids: seq<int>, names: map<int, string>): (r: seq<int>)
    ensures forall x :: x in r <==> x in ids && !Named(names, x)
    ensures |r| <= |ids|
  {
    if ids == [] then []
    else
      var k := |ids| - 1;
      assert forall x :: x in ids <==> x in ids[..k] || x == ids[k];
      Missing(ids[..k], names) + (if Named(names, ids[k]) then [] else [ids[k]])
  }

  /** The name one missing id ends with: the first attempt that succeeds,
    else `#id`. */
  function FetchedName(fetch: NameFetch, id: int): (r: string)
    ensures r == "#" + IntToString(id) || exists a :: 0 <= a < 2 && fetch(id, a) == Some(r)
    ensures fetch(id, 0).None? && fetch(id, 1).None? ==> r == "#" + IntToString(id)
  {
    match fetch(id, 0)
    case Some(name) => name
    case None =>
      match fetch(id, 1)
      case Some(name) => name
      case None => "#" + IntToString(id)
  }

  /** The `fresh` map: one fetched name per missing id. */
  function FreshNames(missing: seq<int>, fetch: NameFetch): (r: map<int, string>)
    ensures forall x :: x in r <==> x in missing
  {
    map id | id in missing :: FetchedName(fetch, id)
  }

  /** The names before fetching: the page's names overridden by the cache,
    which is discarded when stale. */
  function BaseNames(window: map<int, string>, cache: map<int, string>, stale: bool): map<int, string> {
    window + (if stale then map[] else cache)
  }

  /** The names after loading. */
  function NamesAfterLoad(order: seq<int>, window: map<int, string>, cache: map<int, string>,
                          stale: bool, fetch: NameFetch): (r: map<int, string>)
    ensures forall id :: id in order ==> id in r
    ensures forall id :: id in window ==> id in r
  {
    var base := BaseNames(window, cache, stale);
    base + FreshNames(Missing(Dedup(order), base), fetch)
  }

  /** fetchSpeciesName with one retry (the back-off pause is left out). */
  method FetchWithRetry(id: int, fetch: NameFetch) returns (name: string)
    ensures name == FetchedName(fetch, id)
  {
    var attempt := 0;
    while attempt < 2
      invariant 0 <= attempt <= 2
      invariant forall a :: 0 <= a < attempt ==> fetch(id, a).None?
    {
      var res := fetch(id, attempt);
      if res.Some? {
        return res.value;
      }
      attempt := attempt + 1;
    }
    name := "#" + IntToString(id);
  }

  /** The fetch phase, with mapWithConcurrency taken as a sequential map. */
  method FetchMissing(missing: seq<int>, fetch: NameFetch) returns (fetched: map<int, string>)
    ensures fetched == FreshNames(missing, fetch)
  {
    fetched := map[];
    var i := 0;
    while i < |missing|
      invariant 0 <= i <= |missing|
      invariant fetched == FreshNames(missing[..i], fetch)
    {
      var name := FetchWithRetry(missing[i], fetch);
      assert forall x :: x in missing[..i + 1] <==> x in missing[..i] || x == missing[i];
      fetched := fetched[missing[i] := name];
      i := i + 1;
    }
    assert missing[..i] == missing;
  }

  /** The merge without storage: returns the final names and the ids that
    were fetched. */
  method MergeNames(order: seq<int>, window: map<int, string>, cache: map<int, string>,
                    stale: bool, fetch: NameFetch)
    returns (names: map<int, string>, missing: seq<int>)
    ensures missing == Missing(Dedup(order), BaseNames(window, cache, stale))
    ensures names == NamesAfterLoad(order, window, cache, stale, fetch)
  {
    var allIds := Dedup(order);
    var c := if stale then map[] else cache;
    names := window + c;
    assert names == BaseNames(window, cache, stale);
    missing := Missing(allIds, names);
    if |missing| == 0 {
      NothingToFetch(names, fetch);
      return;
    }
    var fetched := FetchMissing(missing, fetch);
    names := names + fetched;
  }

  /** With no id missing, the fetched map is empty and the names stay. */
  lemma NothingToFetch(names: map<int, string>, fetch: NameFetch)
    ensures names + FreshNames([], fetch) == names
  {
    assert FreshNames([], fetch) == map[];
    assert names + map[] == names;
  }

  /** After loading, every id of the order has a name; ids that had a truthy
    name are not fetched and keep it; every fetched id gets the first
    successful attempt's name, or `#id` when both attempts fail. */
  lemma NamesAfterLoadCorrect(order: seq<int>, window: map<int, string>, cache: map<int, string>,
                              stale: bool, fetch: NameFetch)
    ensures var base := BaseNames(window, cache, stale);
      var missing := Missing(Dedup(order), base);
      var names := NamesAfterLoad(order, window, cache, stale, fetch);
      && (forall id :: id in order ==> id in names)
      && (forall id :: Named(base, id) ==> id !in missing && names[id] == base[id])
      && (forall id :: id in missing ==> names[id] == FetchedName(fetch, id))
      && (forall id :: id in missing && fetch(id, 0).None? && fetch(id, 1).None? ==>
            names[id] == "#" + IntToString(id))
  {
  }

  /** A stale cache plays no part in the result. */
  lemma StaleCacheDiscarded(order: seq<int>, window: map<int, string>, c1: map<int, string>,
                            c2: map<int, string>, fetch: NameFetch)
    ensures NamesAfterLoad(order, window, c1, true, fetch) == NamesAfterLoad(order, window, c2, true, fetch)
  {
  }

  /** With no fetch yielding an empty name, every id of the order ends with
    a truthy name. */
  lemma AllNamed(order: seq<int>, window: map<int, string>, cache: map<int, string>,
                 stale: bool, fetch: NameFetch)
    requires forall id, a :: fetch(id, a).Some? ==> fetch(id, a).value != ""
    ensures forall id :: id in order ==> Named(NamesAfterLoad(order, window, cache, stale, fetch), id)
  {
    var base := BaseNames(window, cache, stale);
    var names := NamesAfterLoad(order, window, cache, stale, fetch);
    forall id | id in order
      ensures Named(names, id)
    {
      if !Named(base, id) {
        assert id in Missing(Dedup(order), base);
        assert names[id] == FetchedName(fetch, id);
        assert fetch(id, 0).Some? ==> fetch(id, 0).value != "";
        assert fetch(id, 1).Some? ==> fetch(id, 1).value != "";
      }
    }
  }

  /** When no fetch yields an empty name, reloading with the saved names as a
    fresh cache finds nothing missing, whatever the page's names are then. */
  lemma ReloadFetchesNothing(order: seq<int>, window: map<int, string>, cache: map<int, string>,
                             stale: bool, fetch: NameFetch, window2: map<int, string>)
    requires forall id, a :: fetch(id, a).Some? ==> fetch(id, a).value != ""
    ensures Missing(Dedup(order), BaseNames(window2, NamesAfterLoad(order, window, cache, stale, fetch), false)) == []
  {
    var names := NamesAfterLoad(order, window, cache, stale, fetch);
    AllNamed(order, window, cache, stale, fetch);
    CacheOverridesWindow(window2, names, order);
    NothingMissing(Dedup(order), BaseNames(window2, names, false));
  }

  lemma CacheOverridesWindow(window: map<int, string>, cache: map<int, string>, order: seq<int>)
    requires forall id :: id in order ==> Named(cache, id)
    ensures forall id :: id in Dedup(order) ==> Named(BaseNames(window, cache, false), id)
  {
  }

  lemma NothingMissing(ids: seq<int>, names: map<int, string>)
    requires forall id :: id in ids ==> Named(names, id)
    ensures Missing(ids, names) == []
  {
  }

  /** loadSpeciesNames: reads the cache and its metadata (the staleness test
    runs at time `checkedAt`), merges, and saves the result with metadata
    stamped `savedAt`; `written` is how many of the two saves succeed. */
  method LoadSpeciesNames(store: Store, order: seq<int>, window: map<int, string>,
                          checkedAt: int, savedAt: int, fetch: NameFetch, written: nat)
    returns (names: map<int, string>)
    modifies store
    ensures names == NamesAfterLoad(order, window, NamesFrom(old(store.speciesNames)),
                                    IsSpeciesCacheStale(old(store.speciesMeta), order, checkedAt), fetch)
    ensures store.speciesNames == if written >= 1 then Object(names) else old(store.speciesNames)
    ensures store.speciesMeta == if written >= 2 then Object(MetaFor(order, savedAt)) else old(store.speciesMeta)
    ensures store.settings == old(store.settings) && store.caught == old(store.caught)
    ensures store.segments == old(store.segments) && store.pokemonToSpecies == old(store.pokemonToSpecies)
  {
    var cache := store.LoadSpeciesCache();
    var stale := store.IsStale(order, checkedAt);
    var missing;
    names, missing := MergeNames(order, window, cache, stale, fetch);
    store.SaveSpeciesCache(names, order, savedAt, written);
  }
}
