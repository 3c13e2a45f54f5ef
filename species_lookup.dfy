// Resolving a pokemon (form) id to its base species id, memoised in
// storage under the decimal form of the pokemon id.

module SpeciesLookup {
  import opened Wrappers
  import opened Decimal
  import opened DexEntries
  import opened Storage

  /** Fetching `pokemon/{id}`: `None` when the response is not ok, otherwise
    the payload's `species.url` (the empty string when it is missing). */
  type PokemonFetch = int -> Option<string>

  /** loadPokemonToSpeciesMapCache: the stored map, or the empty map. A
    stored JSON value that is not an object is taken as the empty map here. */
  function LookupCacheFrom(stored: Stored<map<string, int>>): (r: map<string, int>)
    ensures stored.Object? ==> r == stored.value
    ensures !stored.Object? ==> r == map[]
  {
    if stored.Object? then stored.value else map[]
  }

  /** A cache hit: the key is present with a truthy (non-zero) value. */
  predicate Hit(cache: map<string, int>, pokemonId: int) {
    IntToString(pokemonId) in cache && cache[IntToString(pokemonId)] != 0
  }

  /** What a fetch yields: the species id of the leftmost
    `/pokemon-species/<digits>/` in the URL, `None` (an exception) when the
    fetch fails, there is no match, or the id is 0. */
  function FetchedSpecies(pokemonId: int, fetch: PokemonFetch): (r: Option<int>)
    ensures r.Some? ==> r.value > 0
    ensures r.Some? <==> fetch(pokemonId).Some? && ParseSpeciesId(fetch(pokemonId).value).Some?
                         && ParseSpeciesId(fetch(pokemonId).value).value != 0
  {
    match fetch(pokemonId)
    case None => None
    case Some(url) =>
      match ParseSpeciesId(url)
      case None => None
      case Some(id) => if id == 0 then None else Some(id)
  }

  /** geSpeciesIdForPokemon's result: the cached value on a hit (without
    fetching), otherwise the fetched species id; `None` is a thrown error. */
  function ResolveSpecies(cache: map<string, int>, pokemonId: int, fetch: PokemonFetch): (r: Option<int>)
    ensures Hit(cache, pokemonId) ==> r == Some(cache[IntToString(pokemonId)])
    ensures !Hit(cache, pokemonId) ==> r == FetchedSpecies(pokemonId, fetch)
  {
    var key := IntToString(pokemonId);
    if key in cache && cache[key] != 0 then Some(cache[key]) else FetchedSpecies(pokemonId, fetch)
  }

  /** The cache after one lookup: a miss that resolves adds the key. */
  function CacheAfter(cache: map<string, int>, pokemonId: int, fetch: PokemonFetch): (r: map<string, int>)
    ensures Hit(r, pokemonId) <==> Hit(cache, pokemonId) || FetchedSpecies(pokemonId, fetch).Some?
    ensures forall k :: k != IntToString(pokemonId) ==> (k in r <==> k in cache)
    ensures forall k :: k in cache && k != IntToString(pokemonId) ==> r[k] == cache[k]
  {
    if !Hit(cache, pokemonId) && FetchedSpecies(pokemonId, fetch).Some?
    then cache[IntToString(pokemonId) := FetchedSpecies(pokemonId, fetch).value]
    else cache
  }

  /** Memoisation: once a lookup succeeds, the next lookup of the same id is
    a hit returning the same species id, whatever the network then does;
    entries for other ids are untouched. */
  lemma Memoised(cache: map<string, int>, pokemonId: int, fetch: PokemonFetch, later: PokemonFetch)
    requires ResolveSpecies(cache, pokemonId, fetch).Some?
    ensures Hit(CacheAfter(cache, pokemonId, fetch), pokemonId)
    ensures ResolveSpecies(CacheAfter(cache, pokemonId, fetch), pokemonId, later)
      == ResolveSpecies(cache, pokemonId, fetch)
    ensures forall k :: k != IntToString(pokemonId) ==>
      (k in CacheAfter(cache, pokemonId, fetch) <==> k in cache)
      && (k in cache ==> CacheAfter(cache, pokemonId, fetch)[k] == cache[k])
  {
  }

  /** geSpeciesIdForPokemon: load the cache, return a hit, otherwise fetch,
    parse, store and save. */
  method GetSpeciesIdForPokemon(store: Store, pokemonId: int, fetch: PokemonFetch, writeOk: bool)
    returns (r: Option<int>)
    modifies store
    ensures r == ResolveSpecies(LookupCacheFrom(old(store.pokemonToSpecies)), pokemonId, fetch)
    ensures var before := LookupCacheFrom(old(store.pokemonToSpecies));
      store.pokemonToSpecies ==
        if !Hit(before, pokemonId) && r.Some? && writeOk
        then Object(CacheAfter(before, pokemonId, fetch))
        else old(store.pokemonToSpecies)
    ensures store.settings == old(store.settings) && store.caught == old(store.caught)
    ensures store.speciesNames == old(store.speciesNames) && store.speciesMeta == old(store.speciesMeta)
    ensures store.segments == old(store.segments)
  {
    var cache := LookupCacheFrom(store.pokemonToSpecies);
    var key := IntToString(pokemonId);
    if key in cache && cache[key] != 0 {
      return Some(cache[key]);
    }
    var res := fetch(pokemonId);
    if res.None? {
      return None;
    }
    var m := ParseSpeciesId(res.value);
    if m.None? || m.value == 0 {
      return None;
    }
    var speciesId := m.value;
    cache := cache[key := speciesId];
    if writeOk {
      store.pokemonToSpecies := Object(cache);
    }
    return Some(speciesId);
  }
}
