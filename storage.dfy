// Browser storage: settings, caught slots, the species-name cache with its
// metadata, and the enabled-segment choice.
//
// localStorage holds JSON text; here each key holds a typed value, with the
// ways a read can fail made explicit (`Stored`). A write either happens or,
// on a quota error, does not; callers pass which one occurs.

module Storage {
  import opened Wrappers
  import opened Decimal
  import opened BitPack

  /** What a read of one key yields: nothing stored (or the empty string),
    text that is not JSON, a JSON value that is not an object (or is falsy),
    or an object. */
  datatype Stored<T> = Absent | Corrupt | NotObject | Object(value: T)

  /** The JSON scalars a setting takes. */
  datatype Json = JNull | JBool(b: bool) | JNum(n: int) | JStr(s: string)

  type Settings = map<string, Json>

  /** DEFAULT_SETTINGS. */
  const DefaultSettings: Settings := map[
    "theme" := JStr("auto"),
    "reducedMotion" := JStr("system"),
    "hideCaughtDefault" := JBool(false),
    "language" := JStr("en"),
    "spriteStyle" := JStr("official-artwork"),
    "defaultGameMode" := JStr("last-used"),
    "defaultGameId" := JNull,
    "version" := JNum(1)
  ]

  /** `{ ...DEFAULT_SETTINGS, ...next }`: every default key is present, and
    each key of `next` overrides the default. */
  function MergeSettings(next: Settings): (r: Settings)
    ensures forall k :: k in r <==> k in DefaultSettings || k in next
    ensures forall k :: k in next ==> r[k] == next[k]
    ensures forall k :: k in DefaultSettings && k !in next ==> r[k] == DefaultSettings[k]
  {
    DefaultSettings + next
  }

  /** loadSettings: the defaults unless an object is stored, in which case
    the stored fields override them. */
  function SettingsFrom(stored: Stored<Settings>): (r: Settings)
    ensures !stored.Object? ==> r == DefaultSettings
    ensures stored.Object? ==> r == MergeSettings(stored.value)
  {
    match stored
    case Object(parsed) => DefaultSettings + parsed
    case _ => DefaultSettings
  }

  /** Merging is idempotent: loading what saveSettings wrote gives back the
    value saveSettings returned. */
  lemma SettingsRoundTrip(next: Settings)
    ensures SettingsFrom(Object(MergeSettings(next))) == MergeSettings(next)
  {
    var m := MergeSettings(next);
    assert MergeSettings(m).Keys == m.Keys;
    forall k | k in m
      ensures MergeSettings(m)[k] == m[k]
    {
    }
  }

  /** loadCaughtSlots: the stored map, or the empty map. A stored JSON value
    that is not an object is taken as the empty map here. */
  function CaughtFrom(stored: Stored<CaughtMap>): (r: CaughtMap)
    ensures stored.Object? ==> r == stored.value
    ensures !stored.Object? ==> r == map[]
  {
    if stored.Object? then stored.value else map[]
  }

  /** loadSpeciesCache: the stored id-to-name map, or the empty map. A stored
    JSON value that is not an object is taken as the empty map here. */
  function NamesFrom(stored: Stored<map<int, string>>): (r: map<int, string>)
    ensures stored.Object? ==> r == stored.value
    ensures !stored.Object? ==> r == map[]
  {
    if stored.Object? then stored.value else map[]
  }

  /** The stored `{ enabled: [...] }` record; `enabled` may be missing. */
  datatype SegmentsRecord = SegmentsRecord(enabled: Option<seq<string>>)

  /** loadEnabledSegments: null unless an object is stored, otherwise the set
    of its `enabled` keys (empty when the field is missing). */
  function EnabledFrom(stored: Stored<SegmentsRecord>): (r: Option<set<string>>)
    ensures r.Some? <==> stored.Object?
    ensures stored.Object? ==> forall k :: k in r.value <==> k in stored.value.enabled.GetOr([])
  {
    match stored
    case Object(record) => Some(set k | k in record.enabled.GetOr([]))
    case _ => None
  }

  // ---------------------------------------------------------------------------
  // The 32-bit rolling hash of the species list.

  const TwoTo31: int := 0x8000_0000
  const TwoTo32: int := 0x1_0000_0000

  /** ECMAScript ToInt32 on an integer: the value congruent to `x` modulo
    2^32 in [-2^31, 2^31). */
  function ToInt32(x: int): (r: int)
    ensures -TwoTo31 <= r < TwoTo31
    ensures (x - r) % TwoTo32 == 0
  {
    (x + TwoTo31) % TwoTo32 - TwoTo31
  }

  /** ToInt32 depends only on the residue modulo 2^32. */
  lemma {:induction false} ToInt32Shift(x: int, q: nat)
    ensures ToInt32(x + TwoTo32 * q) == ToInt32(x)
    ensures ToInt32(x - TwoTo32 * q) == ToInt32(x)
  {
    if q > 0 {
      ToInt32Shift(x, q - 1);
      assert x + TwoTo32 * q == (x + TwoTo32 * (q - 1)) + TwoTo32;
      assert x - TwoTo32 * q == (x - TwoTo32 * (q - 1)) - TwoTo32;
    }
  }

  /** `((h << 5) - h + c) | 0` is `(31 * h + c)` reduced to a signed 32-bit
    value. */
  lemma ShiftStep(h: int, c: int)
    requires -TwoTo31 <= h < TwoTo31
    ensures ToInt32(ToInt32(h * 32) - h + c) == ToInt32(31 * h + c)
  {
    var w := ToInt32(h * 32);
    var q := (h * 32 - w) / TwoTo32;
    assert h * 32 - w == TwoTo32 * q;
    if q >= 0 {
      ToInt32Shift(31 * h + c - TwoTo32 * q, q);
    } else {
      ToInt32Shift(31 * h + c - TwoTo32 * q, -q);
    }
  }

  /** The hash of a string: h := (31 h + code) mod 2^32, signed, per
    character, starting from 0. */
  function HashString(s: string): (h: int)
    ensures -TwoTo31 <= h < TwoTo31
  {
    if s == [] then 0
    else ToInt32(31 * HashString(s[..|s| - 1]) + (s[|s| - 1] as int))
  }

  /** `Array.from(new Set(order))`: the first occurrence of every id, in
    order. */
  function Dedup(order: seq<int>): (r: seq<int>)
    ensures forall x :: x in r <==> x in order
    ensures forall i, j :: 0 <= i < j < |r| ==> r[i] != r[j]
  {
    if order == [] then []
    else
      var d := Dedup(order[..|order| - 1]);
      assert forall x :: x in order <==> x in order[..|order| - 1] || x == order[|order| - 1];
      if order[|order| - 1] in d then d else d + [order[|order| - 1]]
  }

  /** A list without repeats is its own first-occurrence list. */
  lemma {:induction false} DedupDistinct(order: seq<int>)
    requires forall i, j :: 0 <= i < j < |order| ==> order[i] != order[j]
    ensures Dedup(order) == order
  {
    if order != [] {
      var k := |order| - 1;
      DedupDistinct(order[..k]);
      assert order[k] !in order[..k];
      assert order[..k] + [order[k]] == order;
    }
  }

  /** `ids.join(',')` of the decimal forms. */
  function Join(ids: seq<int>): string {
    if ids == [] then ""
    else if |ids| == 1 then IntToString(ids[0])
    else Join(ids[..|ids| - 1]) + "," + IntToString(ids[|ids| - 1])
  }

  /** The value hashSpeciesIds returns: the decimal form of the hash of the
    joined first-occurrence list. */
  function IdsHash(order: seq<int>): string {
    IntToString(HashString(Join(Dedup(order))))
  }

  /** The shift-and-subtract loop of hashSpeciesIds over the characters of
    `s`. */
  method HashChars(s: string) returns (h: int)
    ensures h == HashString(s)
  {
    h := 0;
    var i := 0;
    while i < |s|
      invariant 0 <= i <= |s|
      invariant h == HashString(s[..i])
    {
      HashStep(s, i, h);
      h := ToInt32(ToInt32(h * 32) - h + (s[i] as int));
      i := i + 1;
    }
    assert s[..i] == s;
  }

  /** One turn of the loop extends the hash of the prefix by one character. */
  lemma HashStep(s: string, i: nat, h: int)
    requires i < |s| && h == HashString(s[..i])
    ensures ToInt32(ToInt32(h * 32) - h + (s[i] as int)) == HashString(s[..i + 1])
  {
    ShiftStep(h, s[i] as int);
    assert s[..i + 1][..i] == s[..i];
  }

  /** hashSpeciesIds: the decimal form of the hash of the joined
    first-occurrence list. */
  method HashSpeciesIds(order: seq<int>) returns (r: string)
    ensures r == IdsHash(order)
  {
    var h := HashChars(Join(Dedup(order)));
    r := IntToString(h);
  }

  /** Repeated ids do not change the hash: it depends only on the
    first-occurrence list. */
  lemma HashIgnoresDuplicates(order: seq<int>, x: int)
    requires x in order
    ensures IdsHash(order + [x]) == IdsHash(order)
    ensures IdsHash(Dedup(order)) == IdsHash(order)
  {
    assert (order + [x])[..|order|] == order;
    DedupDistinct(Dedup(order));
  }

  lemma JoinPair(a: int, b: int)
    ensures Join([a, b]) == IntToString(a) + "," + IntToString(b)
  {
    assert [a, b][..1] == [a];
  }

  /** ToInt32 leaves a value of the signed 32-bit range unchanged. */
  lemma ToInt32Small(x: int)
    requires -TwoTo31 <= x < TwoTo31
    ensures ToInt32(x) == x
  {
    assert 0 <= x + TwoTo31 < TwoTo32;
  }

  /** On three characters no step of the hash wraps around. */
  lemma HashOfThree(a: char, b: char, c: char)
    ensures HashString([a, b, c]) == 961 * (a as int) + 31 * (b as int) + (c as int)
  {
    var s := [a, b, c];
    assert s[..2] == [a, b] && s[..2][..1] == [a] && [a][..0] == [];
    ToInt32Small(a as int);
    assert HashString([a]) == a as int;
    ToInt32Small(31 * (a as int) + (b as int));
    assert HashString([a, b]) == 31 * (a as int) + (b as int);
    ToInt32Small(961 * (a as int) + 31 * (b as int) + (c as int));
  }

  lemma JoinedPair(a: nat, b: nat)
    requires a < 10 && b < 10 && a != b
    ensures Join(Dedup([a, b])) == [DigitChar(a), ',', DigitChar(b)]
  {
    DedupDistinct([a, b]);
    JoinPair(a, b);
  }

  /** The joined list `"1,2"` hashes to 48503. */
  lemma HashValueOneTwo()
    ensures HashString(Join(Dedup([1, 2]))) == 48503
  {
    JoinedPair(1, 2);
    HashOfThree('1', ',', '2');
  }

  /** The joined list `"2,1"` hashes to 49463. */
  lemma HashValueTwoOne()
    ensures HashString(Join(Dedup([2, 1]))) == 49463
  {
    JoinedPair(2, 1);
    HashOfThree('2', ',', '1');
  }

  lemma HashOneTwo()
    ensures IdsHash([1, 2]) == "48503"
  {
    HashValueOneTwo();
    assert NatToString(48503) == "48503";
  }

  lemma HashTwoOne()
    ensures IdsHash([2, 1]) == "49463"
  {
    HashValueTwoOne();
    assert NatToString(49463) == "49463";
  }

  /** The list is not sorted, so its order matters: the same two ids in the
    other order give another hash. */
  lemma HashDependsOnOrder()
    ensures IdsHash([1, 2]) != IdsHash([2, 1])
  {
    HashOneTwo();
    HashTwoOne();
  }

  // ---------------------------------------------------------------------------
  // Species-name cache metadata and staleness.

  /** SPECIES_CACHE_TTL_MS: 180 days in milliseconds. The split modules
    import it from `js/config.js`, which does not define it; the value is
    the one in `app.js`. */
  const SpeciesCacheTtlMs: int := 1000 * 60 * 60 * 24 * 180

  /** `{ ts, idsHash, version }`; the first two may be missing. */
  datatype CacheMeta = CacheMeta(ts: Option<int>, idsHash: Option<string>, version: int)

  /** isSpeciesCacheStale at time `now`: no metadata object, or older than
    the TTL (a missing timestamp counts as 0), or written for a different
    species list. */
  function IsSpeciesCacheStale(meta: Stored<CacheMeta>, order: seq<int>, now: int): (r: bool)
    ensures !meta.Object? ==> r
    ensures meta.Object? && meta.value.ts.None? && now > SpeciesCacheTtlMs ==> r
    ensures !r ==> meta.Object? && meta.value.idsHash == Some(IdsHash(order))
    ensures !r ==> now - SpeciesCacheTtlMs <= meta.value.ts.GetOr(0)
  {
    || !meta.Object?
    || now - meta.value.ts.GetOr(0) > SpeciesCacheTtlMs
    || meta.value.idsHash != Some(IdsHash(order))
  }

  /** The metadata saveSpeciesCache writes. */
  function MetaFor(order: seq<int>, now: int): CacheMeta {
    CacheMeta(Some(now), Some(IdsHash(order)), 1)
  }

  /** Metadata written at time `t` for `order` is fresh for that same list
    exactly while no more than the TTL has passed, whatever the list's
    repeats. */
  lemma FreshAfterSave(order: seq<int>, t: int, now: int)
    ensures !IsSpeciesCacheStale(Object(MetaFor(order, t)), order, now) <==> now - t <= SpeciesCacheTtlMs
    ensures forall x :: x in order ==>
      (!IsSpeciesCacheStale(Object(MetaFor(order, t)), order + [x], now) <==> now - t <= SpeciesCacheTtlMs)
  {
    forall x | x in order
      ensures IdsHash(order + [x]) == IdsHash(order)
    {
      HashIgnoresDuplicates(order, x);
    }
  }

  /** Metadata written for one list is stale for a list with a different
    hash. */
  lemma StaleForOtherList(order: seq<int>, other: seq<int>, t: int, now: int)
    requires IdsHash(other) != IdsHash(order)
    ensures IsSpeciesCacheStale(Object(MetaFor(order, t)), other, now)
  {
  }

  // ---------------------------------------------------------------------------
  // The store.

  /** localStorage, one field per key. */
  class Store {
    var settings: Stored<Settings>
    var caught: Stored<CaughtMap>
    var speciesNames: Stored<map<int, string>>
    var speciesMeta: Stored<CacheMeta>
    var segments: Stored<SegmentsRecord>
    var pokemonToSpecies: Stored<map<string, int>>

    constructor ()
      ensures settings == Absent && caught == Absent && speciesNames == Absent
      ensures speciesMeta == Absent && segments == Absent && pokemonToSpecies == Absent
    {
      settings := Absent;
      caught := Absent;
      speciesNames := Absent;
      speciesMeta := Absent;
      segments := Absent;
      pokemonToSpecies := Absent;
    }

    method LoadSettings() returns (r: Settings)
      ensures r == SettingsFrom(settings)
    {
      r := SettingsFrom(settings);
    }

    /** saveSettings: returns the merged value whether or not the write
      succeeds; after a successful write, loading gives it back. */
    method SaveSettings(next: Settings, writeOk: bool) returns (merged: Settings)
      modifies this
      ensures merged == MergeSettings(next)
      ensures settings == if writeOk then Object(merged) else old(settings)
      ensures writeOk ==> SettingsFrom(settings) == merged
      ensures caught == old(caught) && speciesNames == old(speciesNames)
      ensures speciesMeta == old(speciesMeta) && segments == old(segments)
      ensures pokemonToSpecies == old(pokemonToSpecies)
    {
      merged := DefaultSettings + next;
      if writeOk {
        settings := Object(merged);
        SettingsRoundTrip(next);
      }
    }

    method LoadCaughtSlots() returns (r: CaughtMap)
      ensures r == CaughtFrom(caught)
    {
      r := CaughtFrom(caught);
    }

    /** saveCaughtSlots: quota errors are swallowed. */
    method SaveCaughtSlots(m: CaughtMap, writeOk: bool)
      modifies this
      ensures caught == if writeOk then Object(m) else old(caught)
      ensures writeOk ==> CaughtFrom(caught) == m
      ensures settings == old(settings) && speciesNames == old(speciesNames)
      ensures speciesMeta == old(speciesMeta) && segments == old(segments)
      ensures pokemonToSpecies == old(pokemonToSpecies)
    {
      if writeOk {
        caught := Object(m);
      }
    }

    method LoadSpeciesCache() returns (r: map<int, string>)
      ensures r == NamesFrom(speciesNames)
    {
      r := NamesFrom(speciesNames);
    }

    /** saveSpeciesCache at time `now`: writes the names, then the metadata;
      `written` is how many of the two writes succeed before a quota error
      stops the rest. */
    method SaveSpeciesCache(names: map<int, string>, order: seq<int>, now: int, written: nat)
      modifies this
      ensures speciesNames == if written >= 1 then Object(names) else old(speciesNames)
      ensures speciesMeta == if written >= 2 then Object(MetaFor(order, now)) else old(speciesMeta)
      ensures written >= 2 ==>
        NamesFrom(speciesNames) == names && !IsSpeciesCacheStale(speciesMeta, order, now)
      ensures settings == old(settings) && caught == old(caught) && segments == old(segments)
      ensures pokemonToSpecies == old(pokemonToSpecies)
    {
      if written >= 1 {
        speciesNames := Object(names);
        if written >= 2 {
          var idsHash := HashSpeciesIds(order);
          speciesMeta := Object(CacheMeta(Some(now), Some(idsHash), 1));
          FreshAfterSave(order, now, now);
        }
      }
    }

    /** isSpeciesCacheStale against the stored metadata. */
    method IsStale(order: seq<int>, now: int) returns (stale: bool)
      ensures stale == IsSpeciesCacheStale(speciesMeta, order, now)
    {
      if !speciesMeta.Object? {
        return true;
      }
      var meta := speciesMeta.value;
      if now - meta.ts.GetOr(0) > SpeciesCacheTtlMs {
        return true;
      }
      var idsHash := HashSpeciesIds(order);
      if meta.idsHash != Some(idsHash) {
        return true;
      }
      return false;
    }

    method LoadEnabledSegments() returns (r: Option<set<string>>)
      ensures r == EnabledFrom(segments)
    {
      r := EnabledFrom(segments);
    }

    /** saveEnabledSegments: stores `Array.from(set)`; after a successful
      write, loading gives back the same set. */
    method SaveEnabledSegments(enabled: set<string>, writeOk: bool)
      modifies this
      ensures writeOk ==> segments.Object? && EnabledFrom(segments) == Some(enabled)
      ensures !writeOk ==> segments == old(segments)
      ensures settings == old(settings) && caught == old(caught) && speciesNames == old(speciesNames)
      ensures speciesMeta == old(speciesMeta) && pokemonToSpecies == old(pokemonToSpecies)
    {
      var keys := SetToSeq(enabled);
      if writeOk {
        segments := Object(SegmentsRecord(Some(keys)));
        assert (set k | k in keys) == enabled;
      }
    }
  }

  /** `Array.from(set)`: every element once, in some order. */
  method SetToSeq(s: set<string>) returns (r: seq<string>)
    ensures forall x :: x in r <==> x in s
    ensures forall i, j :: 0 <= i < j < |r| ==> r[i] != r[j]
    ensures |r| == |s|
  {
    r := [];
    var rest := s;
    while rest != {}
      invariant rest <= s
      invariant forall x :: x in r <==> x in s && x !in rest
      invariant forall i, j :: 0 <= i < j < |r| ==> r[i] != r[j]
      invariant |r| + |rest| == |s|
      decreases |rest|
    {
      var x :| x in rest;
      r := r + [x];
      rest := rest - {x};
    }
  }
}
