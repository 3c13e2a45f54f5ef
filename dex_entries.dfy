/**
 * The entry transform of `loadPokedexEntries` (and of `getOrFetchPokedexById`
 * in the monolithic app, which is the same code): a fetched list of PokeAPI
 * pokedex entries is stably sorted by `entry_number`, each entry's species URL
 * is parsed with `/\/pokemon-species\/(\d+)\//`, unparsable entries are
 * dropped, and the dex's regional form mapping picks the sprite form.
 */
module DexEntries {
  import opened Wrappers
  import opened Decimal

  /** A raw `pokemon_entries` element; `None` for a missing field. */
  datatype RawEntry = RawEntry(entryNumber: Option<int>, speciesUrl: Option<string>)

  /** One slot's content: the species (for names) and the form (for sprites). */
  datatype Entry = Entry(speciesId: int, formId: int)

  /** `a.entry_number || 0`. */
  function SortKey(e: RawEntry): int {
    e.entryNumber.GetOr(0)
  }

  // ---------------------------------------------------------------- sorting

  /** Places `x` before the first element whose key is not smaller. */
  function Insert(x: RawEntry, t: seq<RawEntry>): (r: seq<RawEntry>)
    ensures multiset(r) == multiset(t) + multiset{x}
    ensures |r| == |t| + 1
  {
    if t == [] || SortKey(x) <= SortKey(t[0]) then [x] + t
    else
      assert t == [t[0]] + t[1..];
      [t[0]] + Insert(x, t[1..])
  }

  /** The comparator sort `(a, b) => (a.entry_number || 0) - (b.entry_number || 0)`;
    `Array.prototype.sort` is stable, and so is this insertion sort. */
  function SortEntries(s: seq<RawEntry>): (r: seq<RawEntry>)
    ensures multiset(r) == multiset(s)
    ensures |r| == |s|
  {
    if s == [] then []
    else
      assert s == [s[0]] + s[1..];
      Insert(s[0], SortEntries(s[1..]))
  }

  predicate SortedByKey(s: seq<RawEntry>) {
    forall i, j :: 0 <= i < j < |s| ==> SortKey(s[i]) <= SortKey(s[j])
  }

  /** The entries of `s` whose key is `k`, in their order in `s`. */
  function WithKey(s: seq<RawEntry>, k: int): (r: seq<RawEntry>)
    ensures |r| <= |s|
  {
    if s == [] then []
    else (if SortKey(s[0]) == k then [s[0]] else []) + WithKey(s[1..], k)
  }

  /** The elements of `Insert(x, t)` are `x` and those of `t`. */
  lemma InsertElements(x: RawEntry, t: seq<RawEntry>)
    ensures forall y :: y in Insert(x, t) <==> y == x || y in t
  {
    var r := Insert(x, t);
    forall y
      ensures y in r <==> y == x || y in t
    {
      assert y in r <==> y in multiset(r);
      assert y in t <==> y in multiset(t);
    }
  }

  lemma {:induction false} InsertSorted(x: RawEntry, t: seq<RawEntry>)
    requires SortedByKey(t)
    ensures SortedByKey(Insert(x, t))
  {
    if t != [] && SortKey(x) > SortKey(t[0]) {
      var r := Insert(x, t[1..]);
      InsertSorted(x, t[1..]);
      InsertElements(x, t[1..]);
      forall j | 0 <= j < |r|
        ensures SortKey(t[0]) <= SortKey(r[j])
      {
        assert r[j] in r;
        if r[j] != x {
          var m :| 0 <= m < |t[1..]| && t[1..][m] == r[j];
          assert t[m + 1] == r[j];
        }
      }
      assert Insert(x, t) == [t[0]] + r;
    }
  }

  lemma WithKeyCons(y: RawEntry, r: seq<RawEntry>, k: int)
    ensures WithKey([y] + r, k) == (if SortKey(y) == k then [y] else []) + WithKey(r, k)
  {
    assert ([y] + r)[0] == y && ([y] + r)[1..] == r;
  }

  lemma {:induction false} InsertWithKey(x: RawEntry, t: seq<RawEntry>, k: int)
    ensures WithKey(Insert(x, t), k) == (if SortKey(x) == k then [x] else []) + WithKey(t, k)
  {
    var here := if SortKey(x) == k then [x] else [];
    if t != [] && SortKey(x) > SortKey(t[0]) {
      var r := Insert(x, t[1..]);
      var first := if SortKey(t[0]) == k then [t[0]] else [];
      var rest := WithKey(t[1..], k);
      InsertWithKey(x, t[1..], k);
      WithKeyCons(t[0], r, k);
      assert WithKey(Insert(x, t), k) == first + (here + rest);
      if first != [] {
        assert here == [];
        assert here + rest == rest && here + (first + rest) == first + rest;
      } else {
        assert first + (here + rest) == here + rest && first + rest == rest;
      }
    } else {
      WithKeyCons(x, t, k);
    }
  }

  /** The sort is ascending, a permutation, and stable: for every key, the
    entries with that key keep their relative order. */
  lemma {:induction false} SortEntriesCorrect(s: seq<RawEntry>)
    ensures SortedByKey(SortEntries(s))
    ensures multiset(SortEntries(s)) == multiset(s)
    ensures forall k :: WithKey(SortEntries(s), k) == WithKey(s, k)
  {
    if s != [] {
      SortEntriesCorrect(s[1..]);
      InsertSorted(s[0], SortEntries(s[1..]));
      forall k
        ensures WithKey(SortEntries(s), k) == WithKey(s, k)
      {
        InsertWithKey(s[0], SortEntries(s[1..]), k);
      }
    }
  }

  // ---------------------------------------------------------- URL parsing

  const SpeciesPath: string := "/pokemon-species/"

  /** The leading run of decimal digits. */
  function DigitRun(t: string): (r: string)
    ensures |r| <= |t| && r == t[..|r|] && AllDigits(r)
    ensures |r| == |t| || !IsDigit(t[|r|])
  {
    if t == [] || !IsDigit(t[0]) then [] else [t[0]] + DigitRun(t[1..])
  }

  /** Whether `/pokemon-species/<digits>/` starts at the front of `t`; `\d+` is
    greedy and the next character must be `/`, so only the whole digit run
    can match. */
  predicate SpeciesMatchHere(t: string) {
    |t| > |SpeciesPath| && t[..|SpeciesPath|] == SpeciesPath &&
    var d := DigitRun(t[|SpeciesPath|..]);
    |d| >= 1 && |SpeciesPath| + |d| < |t| && t[|SpeciesPath| + |d|] == '/'
  }

  /** `Number(m[1])` of the leftmost match, `None` when `exec` returns `null`. */
  function ParseSpeciesId(url: string): (r: Option<nat>)
    ensures r.Some? ==> |url| >= |SpeciesPath| + 2
    decreases |url|
  {
    if url == [] then None
    else if SpeciesMatchHere(url) then Some(DigitsValue(DigitRun(url[|SpeciesPath|..])))
    else ParseSpeciesId(url[1..])
  }

  lemma {:induction false} DigitRunOfDigits(d: string, rest: string)
    requires AllDigits(d)
    requires rest == [] || !IsDigit(rest[0])
    ensures DigitRun(d + rest) == d
  {
    if d == [] {
      assert d + rest == rest;
    } else {
      assert (d + rest)[1..] == d[1..] + rest;
      DigitRunOfDigits(d[1..], rest);
    }
  }

  /** A PokeAPI species URL `.../pokemon-species/<id>/` parses to `id`, whatever
    precedes it, as long as no earlier match exists. */
  lemma SpeciesUrlParses(id: nat, rest: string)
    ensures ParseSpeciesId(SpeciesPath + NatToString(id) + "/" + rest) == Some(id)
  {
    var d := NatToString(id);
    var u := SpeciesPath + d + "/" + rest;
    assert u[..|SpeciesPath|] == SpeciesPath;
    assert u[|SpeciesPath|..] == d + ("/" + rest);
    DigitRunOfDigits(d, "/" + rest);
    assert u[|SpeciesPath| + |d|] == '/';
    DigitsValueOfString(id);
  }

  /** Characters before the species path that cannot start a match are skipped. */
  lemma {:induction false} SkipPrefix(p: string, u: string)
    requires forall i :: 0 <= i < |p| ==> !SpeciesMatchHere((p + u)[i..])
    ensures ParseSpeciesId(p + u) == ParseSpeciesId(u)
  {
    if p != [] {
      var t := p + u;
      assert t[0..] == t;
      assert t[1..] == p[1..] + u;
      forall i | 0 <= i < |p[1..]|
        ensures !SpeciesMatchHere((p[1..] + u)[i..])
      {
        assert (p[1..] + u)[i..] == t[i + 1..];
      }
      SkipPrefix(p[1..], u);
    } else {
      assert p + u == u;
    }
  }

  /** The id of the first `/pokemon-species/<id>/` in a URL is the one parsed,
    as in `https://pokeapi.co/api/v2/pokemon-species/25/`. */
  lemma SpeciesUrlAfterPrefix(p: string, id: nat, rest: string)
    requires forall i :: 0 <= i < |p| ==> !SpeciesMatchHere((p + (SpeciesPath + NatToString(id) + "/" + rest))[i..])
    ensures ParseSpeciesId(p + (SpeciesPath + NatToString(id) + "/" + rest)) == Some(id)
  {
    SkipPrefix(p, SpeciesPath + NatToString(id) + "/" + rest);
    SpeciesUrlParses(id, rest);
  }

  // ------------------------------------------------------- form mapping

  /** `REGIONAL_FORM_MAPPINGS[pokedexId] || {}`. */
  function MappingFor(all: map<int, map<int, int>>, pokedexId: int): map<int, int> {
    if pokedexId in all then all[pokedexId] else map[]
  }

  /** `regionalMappings[speciesId] || speciesId`: a mapped form, unless it is
    missing or falsy (zero). */
  function FormFor(mapping: map<int, int>, speciesId: int): (f: int)
    ensures speciesId in mapping && mapping[speciesId] != 0 ==> f == mapping[speciesId]
    ensures !(speciesId in mapping && mapping[speciesId] != 0) ==> f == speciesId
  {
    if speciesId in mapping && mapping[speciesId] != 0 then mapping[speciesId] else speciesId
  }

  /** `.map(...).filter(Boolean)` over the sorted entries. */
  function ResolveEntries(sorted: seq<RawEntry>, mapping: map<int, int>): (r: seq<Entry>)
    ensures |r| <= |sorted|
  {
    if sorted == [] then []
    else
      var head :=
        match ParseSpeciesId(sorted[0].speciesUrl.GetOr(""))
        case None => []
        case Some(id) => [Entry(id, FormFor(mapping, id))];
      head + ResolveEntries(sorted[1..], mapping)
  }

  /** The raw entries that survive the filter. */
  function Parsable(s: seq<RawEntry>): (r: seq<RawEntry>)
    ensures |r| <= |s|
  {
    if s == [] then []
    else (if ParseSpeciesId(s[0].speciesUrl.GetOr("")).Some? then [s[0]] else []) + Parsable(s[1..])
  }

  /** One output entry per parsable input entry, in order: the species is the
    parsed id and the form is the mapped form or the species itself. */
  lemma {:induction false} ResolveEntriesCorrect(s: seq<RawEntry>, mapping: map<int, int>)
    ensures |ResolveEntries(s, mapping)| == |Parsable(s)|
    ensures forall i :: 0 <= i < |Parsable(s)| ==>
      var id := ParseSpeciesId(Parsable(s)[i].speciesUrl.GetOr(""));
      id.Some? && ResolveEntries(s, mapping)[i] == Entry(id.value, FormFor(mapping, id.value))
  {
    if s != [] {
      ResolveEntriesCorrect(s[1..], mapping);
    }
  }

  /** The whole transform for a fetched dex. */
  function TransformEntries(raw: seq<RawEntry>, pokedexId: int, mappings: map<int, map<int, int>>): (r: seq<Entry>)
    ensures |r| <= |raw|
  {
    ResolveEntries(SortEntries(raw), MappingFor(mappings, pokedexId))
  }

  /** The result is no longer than the input; it has exactly one entry per
    parsable raw entry, taken in stable `entry_number` order. */
  lemma TransformEntriesCorrect(raw: seq<RawEntry>, pokedexId: int, mappings: map<int, map<int, int>>)
    ensures |TransformEntries(raw, pokedexId, mappings)| <= |raw|
    ensures |TransformEntries(raw, pokedexId, mappings)| == |Parsable(SortEntries(raw))|
    ensures SortedByKey(SortEntries(raw))
    ensures forall k :: WithKey(SortEntries(raw), k) == WithKey(raw, k)
  {
    SortEntriesCorrect(raw);
    ResolveEntriesCorrect(SortEntries(raw), MappingFor(mappings, pokedexId));
  }

  // ------------------------------------------------------------- loading

  /** `loadPokedexEntries(pokedexId)`. `cached` is the parsed `entries` array
    of the per-dex cache key (`None` when absent, unparsable or not an array);
    `fetched` is the response's `pokemon_entries` (a missing list is `[]`), or
    `None` when the response is not ok, which throws. */
  function LoadPokedexEntries(cached: Option<seq<Entry>>, fetched: Option<seq<RawEntry>>,
                              pokedexId: int, mappings: map<int, map<int, int>>): (r: Option<seq<Entry>>)
    ensures cached.Some? && |cached.value| > 0 ==> r == cached
    ensures !(cached.Some? && |cached.value| > 0) ==>
      (fetched.None? <==> r.None?) &&
      (fetched.Some? ==> |r.value| <= |fetched.value|)
    ensures !(cached.Some? && |cached.value| > 0) && fetched.Some? ==>
      r == Some(TransformEntries(fetched.value, pokedexId, mappings))
  {
    if cached.Some? && |cached.value| > 0 then cached
    else if fetched.None? then None
    else
      TransformEntriesCorrect(fetched.value, pokedexId, mappings);
      Some(TransformEntries(fetched.value, pokedexId, mappings))
  }

  /** The cache content after the call: written after a fetch unless the
    write fails (`writeOk` false), untouched on a hit or an error. */
  function CacheAfterLoad(cached: Option<seq<Entry>>, fetched: Option<seq<RawEntry>>,
                          pokedexId: int, mappings: map<int, map<int, int>>, writeOk: bool): Option<seq<Entry>>
  {
    if cached.Some? && |cached.value| > 0 then cached
    else if fetched.None? || !writeOk then cached
    else Some(TransformEntries(fetched.value, pokedexId, mappings))
  }

  /** Loading again after a successful, written fetch returns the same
    non-empty entries from the cache, whatever the network now answers. */
  lemma CachedReload(cached: Option<seq<Entry>>, fetched: seq<RawEntry>, later: Option<seq<RawEntry>>,
                     pokedexId: int, mappings: map<int, map<int, int>>)
    requires !(cached.Some? && |cached.value| > 0)
    requires |LoadPokedexEntries(cached, Some(fetched), pokedexId, mappings).value| > 0
    ensures LoadPokedexEntries(CacheAfterLoad(cached, Some(fetched), pokedexId, mappings, true), later, pokedexId, mappings)
         == LoadPokedexEntries(cached, Some(fetched), pokedexId, mappings)
  {
  }
}
