# LivingDex core in Dafny

LivingDex is a browser tracker for a "living Pokédex": every species (and
regional form) of a game's dexes gets one numbered slot in 30-slot storage
boxes, and the user marks slots as caught. This project models the logic
under the page's DOM code and proves properties of it:

- the share link: the caught map bit-packed into bytes, Base64 encoded with
  the URL-safe alphabet of section 5 of RFC 4648 and without the `=`
  padding of section 3.2, behind a `#s=` marker. There are two variants:
  the older single-file app (`app.js`) and the split modules (`js/ui.js`),
  which insert deflate/inflate between packing and Base64;
- dex entry resolution (sort by entry number, species id parsed from the
  species URL, regional form mapping) and the composition of the active
  sections from the configured segments;
- slot numbering and box layout: contiguous 1-based global slots, the local
  three-digit display index, 30-slot boxes and the placeholders that pad
  the last box;
- the caught-state operations: a cell click, the box "mark/unmark all"
  toggle, the caught count and the reset;
- the cache bookkeeping: the 32-bit rolling hash of the species list, the
  staleness test, the settings and enabled-segment load/save, the
  pokemon-to-species memo cache and the species-name merge with its `#id`
  fallback;
- small rules: species-name normalisation, the search filter, the colour
  theme and its toggle, and the scroll hysteresis of the search bar.

One module per component. Storage is a class `Storage.Store` with one field
per localStorage key. Its methods change only the fields they name. Loops of
the source are methods with invariants, proved equal to specification
functions about which the lemmas speak. The network, the clock, the system
colour preference and the compression library are parameters:
- `now`, `checkedAt` and `savedAt` stand for `Date.now()`;
- `systemDark` stands for the `prefers-color-scheme` media query;
- `Compressor` functions stand for `pako.deflate`/`pako.inflate`;
- `fetch`, `load` and `resolve` functions stand for the PokeAPI calls.

A quota failure is a `writeOk` flag; `written` counts how many of
saveSpeciesCache's two writes succeed.

`hashSpeciesIds` removes duplicates but does not sort, so reordering the
list changes the hash (`Storage.HashDependsOnOrder`).

`app.js` and `js/*.js` contain the same layout, counting, toggle, reset and
hashing logic line for line; the rows below cite the split modules for those
and `app.js` where it differs.

## Model

| member | source | states |
|---|---|---|
| Base64.SextetCharRoundTrip | app.js:422 | every Base64 digit value maps to an alphabet character that maps back to it |
| Base64.Btoa | app.js:422 | `btoa` output has length 4·ceil(n/3), a multiple of 4 |
| Base64.AtobBtoa | app.js:438 | `atob(btoa(b))` gives back `b` for every byte string |
| Base64.Atob | app.js:438 | a successful `atob` yields at most three bytes per four input characters |
| Base64.UrlSafeRoundTrip | app.js:422-436 | the `+`→`-`, `/`→`_` substitution yields only URL-safe characters and the reverse substitution undoes it |
| Base64.ToUrlSafe | app.js:422 | no `+` or `/` is left and every other character is kept |
| Base64.FromUrlSafe | app.js:436 | no `-` or `_` is left and every other character is kept |
| Base64.StripPadding | js/ui.js:186 | removes exactly the trailing run of `=`: a prefix, not ending in `=`, the rest all `=` |
| Base64.RestorePadding | js/ui.js:203 | appends `(4 - len % 4) % 4` characters, giving a length that is a multiple of 4 with the input as prefix |
| Base64.RestoreStripped | js/ui.js:183-203 | the padding the encoder strips is exactly the padding the decoder restores |
| BitPack.ByteCount | app.js:414 | `Math.ceil(n / 8)`: the fewest bytes holding n bits |
| BitPack.PackSlots | app.js:414-416 | the encoder's slot loop builds the packed buffer |
| BitPack.PackedBit | app.js:416 | slot s lands in bit `(s-1) & 7` of byte `(s-1) >> 3`, set exactly when `caught[s]` is truthy and s ≤ n |
| BitPack.UnpackSlots | app.js:440-443 | the decoder's slot loop builds exactly the map with keys 1..n read from the bits |
| BitPack.UnpackPacked | app.js:412-443 | unpacking the packed buffer gives keys exactly 1..n, each the truthiness of the original slot |
| BitPack.UnpackPastEnd | app.js:442 | bits past the decoded bytes read as false |
| ShareToken.BinaryRoundTrip | app.js:418-439 | `String.fromCharCode` then `charCodeAt` gives back every byte |
| ShareToken.TokenFor | app.js:418-422 | the token has no `+` or `/` and does not end in `=` |
| ShareToken.BytesOf | app.js:436-439 | a decoded token yields at most three bytes per four characters, counting the restored padding |
| ShareToken.TokenRoundTrip | app.js:418-438 | the token is URL-safe, empty only for zero bytes, and decodes back to the bytes |
| ShareToken.TakeToken | app.js:434 | `[^&]+` takes the longest prefix without `&` |
| ShareToken.FindToken | app.js:434 | a captured token is non-empty and holds no `&` |
| ShareToken.FindLinkToken | app.js:434 | `#s=<token>` followed by nothing or by `&…` captures exactly the token |
| ShareToken.NoMarkerNoToken | app.js:434-435 | without a `#s=` marker nothing is captured |
| ShareToken.BareMarkerNoToken | app.js:434 | a bare `#s=` captures nothing of its own |
| ShareCodec.ShareLink | app.js:412-426 | the link starts with `#s=` and is the bare marker exactly when there are no slots |
| ShareCodec.DecodeShare | app.js:432-448 | a decoded map needs a matched token and has exactly the keys 1..N |
| ShareCodec.EncodeCaughtState | app.js:412-426 | the uncompressed encoder returns the share link of slots 1..N |
| ShareCodec.DecodeCaughtState | app.js:432-448 | the uncompressed decoder returns the decoded map, or null |
| ShareCodec.ShareRoundTrip | app.js:412-448 | for N ≥ 1, decoding the link (with any `&…` after it) sets every slot 1..N to the truthiness of the original and has no other key |
| ShareCodec.EmptyShare | app.js:414-435 | for N = 0 the link is exactly `#s=` and decodes to null |
| ShareCodec.ShareLinkAlphabet | app.js:422 | the link is `#s=` then only URL-safe alphabet characters |
| ShareCodec.NoMarkerNull | app.js:434-435 | a hash without `#s=` decodes to null |
| CompressedShareCodec.EncodeCaughtState | js/ui.js:162-193 | the compressing encoder returns the link, or `''` when deflate throws |
| CompressedShareCodec.DecodeCaughtState | js/ui.js:196-226 | the inflating decoder returns the decoded map, or null |
| CompressedShareCodec.CompressedLink | js/ui.js:162-193 | `''` exactly when deflate throws, otherwise a link starting with `#s=` |
| CompressedShareCodec.DecodeCompressed | js/ui.js:196-226 | a decoded map needs a matched token and has exactly the keys 1..slotCount |
| CompressedShareCodec.CompressedRoundTrip | js/ui.js:162-226 | when inflate undoes deflate, decoding the link with the same slot count reproduces the truthiness of every slot 1..slotCount; a throwing deflate gives `''` |
| CompressedShareCodec.CompressedLinkAlphabet | js/ui.js:183-188 | the link is `''` or `#s=` then only URL-safe characters |
| SpeciesName.Upper | app.js:223 | `toUpperCase` on one character: a-z moves down by 32 to A-Z, every other character is kept, and word characters stay word characters |
| SpeciesName.Normalise | app.js:223 | keeps the length, leaves no `-`, changes only the first word character of each word, and that character becomes its `toUpperCase` value (a-z shifted to A-Z, anything else kept) |
| SpeciesName.NormaliseIdempotent | app.js:223 | normalising twice is normalising once |
| SpeciesName.NormaliseExample | app.js:223 | `mr-mime` → `Mr Mime`, `ho-oh` → `Ho Oh`, `porygon-z` → `Porygon Z` |
| Decimal.NatToString | js/storage.js:129 | `String(n)`: decimal digits without a leading zero |
| Decimal.DigitsValueOfString | js/ui.js:439 | `Number(String(n)) == n` |
| Decimal.PadStart | js/ui.js:329 | `padStart(width, '0')`: the string right-aligned behind zeros, never cut |
| Decimal.PadStartValue | js/ui.js:329 | zero padding keeps a digit string's value |
| DexEntries.SortEntries | js/api.js:68 | the sort is a permutation of its input |
| DexEntries.SortEntriesCorrect | js/api.js:68 | ascending by `entry_number \|\| 0`, a permutation, and stable |
| DexEntries.DigitRun | js/api.js:74 | `\d+` takes the longest run of digits |
| DexEntries.SpeciesUrlParses | js/api.js:74-76 | a `/pokemon-species/<id>/` URL parses to `id` |
| DexEntries.SpeciesUrlAfterPrefix | js/api.js:74 | the leftmost species path in a URL decides the id |
| DexEntries.ParseSpeciesId | js/api.js:74-76 | a match needs room for the species path, one digit and the closing `/` |
| DexEntries.FormFor | js/api.js:78 | the mapped form when the table gives a truthy one, else the species id |
| DexEntries.ResolveEntries | js/api.js:73-80 | the filter keeps at most one entry per raw entry |
| DexEntries.ResolveEntriesCorrect | js/api.js:73-80 | exactly one entry per parsable raw entry, in order, species id parsed, form mapped |
| DexEntries.TransformEntries | js/api.js:68-80 | the transformed list is no longer than the fetched one |
| DexEntries.TransformEntriesCorrect | js/api.js:68-80 | no longer than the input; sorted, stable, one entry per parsable entry |
| DexEntries.LoadPokedexEntries | js/api.js:56-84 | a non-empty cached list is returned unchanged; otherwise a failed fetch fails and a successful one gives its transformed entries |
| DexEntries.CachedReload | js/api.js:58-62 | a load after a written fetch returns the same entries whatever the network does |
| Sections.DefaultEnabled | js/api.js:92 | the default enabled set is exactly the keys of the non-optional segments |
| Sections.EnabledSet | js/api.js:92 | a stored set is used as it is, even when empty; otherwise the keys of the non-optional segments |
| Sections.ManualEntries | js/api.js:98-117 | one entry per manual id in order, form = id; a forms segment's species is the resolved one or the id itself |
| Sections.Active | js/api.js:94-124 | the loop's result has no more sections than there are segments |
| Sections.ActiveFails | js/api.js:119-121 | the composition fails exactly when an included segment's load throws |
| Sections.ActiveKept | js/api.js:94-124 | the sections are the included segments with entries, in declared order, key/kind from id/type |
| Sections.FailureSticks | js/api.js:120 | once a load throws, the whole call fails |
| Sections.DefaultInclusion | js/api.js:92-97 | with nothing stored, a segment is shown exactly when it is not optional |
| Sections.BuildActiveDexSections | js/api.js:91-125 | the section loop computes the composition |
| Sections.ComputeActiveSections | app.js:560-582 | the older composition: a non-composite dex is one `base` section; manual ids map to `(id, id)` |
| BoxLayout.BoxCount | js/ui.js:262 | `Math.ceil(n / 30)`: the fewest boxes for n slots, zero only for n = 0 |
| BoxLayout.Boxes | js/ui.js:262-267 | one range per box |
| BoxLayout.RenderBoxes | js/ui.js:262-281 | the render loop creates exactly these box ranges |
| BoxLayout.BoxesPartition | js/ui.js:262-267 | box b covers local 30b+1..min(30(b+1), n) and the matching global range; boxes are contiguous, at most 30 wide and cover start..start+n-1 |
| BoxLayout.DisplayIndexReadsBack | js/ui.js:329 | the padded display index has at least 3 digits and reads back as the position i+1 |
| BoxLayout.DisplayName | js/ui.js:328 | the stored name when truthy, else `#id`; never empty |
| BoxLayout.PlaceholderCount | js/ui.js:363-374 | fewer than 30 placeholders make the section a multiple of 30; none when it already is |
| BoxLayout.PlaceSlots | js/ui.js:326-360 | the entries loop places one slot cell per entry; the box cursor and fill count are the quotient and remainder by 30 |
| BoxLayout.PadLastBox | js/ui.js:363-374 | the placeholder loop pads only a partly filled box, up to 30 cells |
| BoxLayout.PlaceSection | js/ui.js:319-374 | one section's cells; the global slot advances by the entry count |
| BoxLayout.PopulateDexSlots | js/ui.js:314-376 | the counters of populateDexSlots produce the layout |
| BoxLayout.Layout | js/ui.js:314-376 | the cells of all sections in render order; it carries no contract, its properties are `BoxLayout.LayoutSlotNumbers` and `BoxLayout.LayoutWholeBoxes` |
| BoxLayout.LayoutSlotNumbers | js/ui.js:316-351 | global slots run 1, 2, …, total across sections; placeholders take none |
| BoxLayout.LayoutWholeBoxes | js/ui.js:363-374 | the layout fills whole 30-slot boxes and holds at least one cell per slot |
| BoxLayout.SectionFill | js/ui.js:322-374 | cell i goes to box i/30; every box gets 30 cells; slot cells come first, with global slot start+i, section position i+1, and the entry's species and form |
| BoxLayout.SlotsInRenderedBoxes | js/ui.js:264-267 | each slot cell goes to a rendered box whose toggle range contains its slot |
| Storage.MergeSettings | js/storage.js:37 | every default key is present; stored keys override the defaults |
| Storage.SettingsFrom | js/storage.js:22-34 | the defaults unless an object is stored, else defaults overridden by it |
| Storage.SettingsRoundTrip | js/storage.js:36-44 | loading what saveSettings wrote gives back its merged value |
| Storage.CaughtFrom | js/storage.js:50-56 | the stored map, or `{}` when nothing parsable is stored; a stored non-object is also `{}` (see Left out) |
| Storage.NamesFrom | js/storage.js:73-79 | the stored names, or `{}` when nothing parsable is stored; a stored non-object is also `{}` (see Left out) |
| Storage.EnabledFrom | js/storage.js:136-144 | null unless an object is stored, else the set of `enabled \|\| []` |
| Storage.ToInt32 | js/storage.js:127 | `\| 0`: the signed 32-bit value congruent to x |
| Storage.ShiftStep | js/storage.js:127 | `((h << 5) - h + c) \| 0` equals `(31h + c)` wrapped to signed 32 bits |
| Storage.HashString | js/storage.js:125-128 | the rolling hash stays in the signed 32-bit range |
| Storage.Dedup | js/storage.js:124 | `Array.from(new Set(order))`: the same ids, each once |
| Storage.DedupDistinct | js/storage.js:124 | a list without repeats is unchanged |
| Storage.HashChars | js/storage.js:124-127 | the loop `h = ((h << 5) - h + code) \| 0` computes the 32-bit rolling hash of the string |
| Storage.HashSpeciesIds | js/storage.js:123-130 | the hash loop computes the hash of the joined first-occurrence list |
| Storage.HashIgnoresDuplicates | js/storage.js:124 | repeating an id does not change the hash |
| Storage.HashOneTwo | js/storage.js:123-130 | the hash of `[1, 2]` is `"48503"` |
| Storage.HashTwoOne | js/storage.js:123-130 | the hash of `[2, 1]` is `"49463"` |
| Storage.HashDependsOnOrder | js/storage.js:124 | the list is not sorted: `[1, 2]` and `[2, 1]` hash differently |
| Storage.FreshAfterSave | js/storage.js:111-117 | metadata saved at t for a list is fresh for it, with repeats too, exactly while `now - t` ≤ TTL |
| Storage.StaleForOtherList | js/storage.js:115 | metadata saved for one list is stale for a list with a different hash |
| Storage.IsSpeciesCacheStale | js/storage.js:111-117 | stale without a metadata object, or with a missing timestamp once the TTL has passed since the epoch; fresh only with this list's hash and a timestamp within the TTL |
| Storage.Store.LoadSettings | js/storage.js:22-34 | reads the settings |
| Storage.Store.SaveSettings | js/storage.js:36-44 | returns the merged value; after a successful write loading returns it; nothing else changes |
| Storage.Store.LoadCaughtSlots | js/storage.js:50-56 | reads the caught map |
| Storage.Store.SaveCaughtSlots | js/storage.js:62-68 | a successful write round-trips the map; a failed one changes nothing and does not throw |
| Storage.Store.LoadSpeciesCache | js/storage.js:73-79 | reads the name cache |
| Storage.Store.SaveSpeciesCache | js/storage.js:84-95 | names first, then `{ts, idsHash, version}`; after both, the cache is fresh for the same list |
| Storage.Store.IsStale | js/storage.js:111-117 | missing metadata, age over the TTL, or another list hash |
| Storage.Store.LoadEnabledSegments | js/storage.js:136-144 | reads the enabled set |
| Storage.Store.SaveEnabledSegments | js/storage.js:146-150 | after a successful write, loading returns the same set |
| Storage.SetToSeq | js/storage.js:148 | `Array.from(set)`: every element once |
| CaughtState.CountIsCardinality | js/ui.js:119-126 | the count is the number of truthy slots in 1..n, at most n |
| CaughtState.CountIgnoresOutside | js/ui.js:122-123 | keys outside 1..n and falsy values are ignored |
| CaughtState.CountCaughtSlots | js/ui.js:119-126 | the counting loop returns that number |
| CaughtState.Flip | js/ui.js:343 | the clicked slot gets the opposite of the cell's class; nothing else changes |
| CaughtState.ClickFlips | js/ui.js:337-344 | with the class mirroring storage a click flips that slot only, a second click restores it, the count moves by one |
| CaughtState.ClickCell | js/ui.js:337-344 | load, flip, save |
| CaughtState.SetAll | js/ui.js:406-410 | every box slot set to the value, other keys kept |
| CaughtState.ToggleBox | js/ui.js:403-410 | `allCaught` over the box's slots, then all set to `!allCaught` |
| CaughtState.ToggleLaws | js/ui.js:402-415 | after a toggle the next `allCaught` is the value written; a second toggle writes the opposite; slots outside stay |
| CaughtState.ToggleBoxStored | js/ui.js:402-411 | load, toggle, save |
| CaughtState.BoxToggleCoversRange | js/ui.js:388-390 | a box's interactive cells are exactly its global slot range, in order |
| CaughtState.CountEmpty | js/ui.js:595-597 | nothing is caught in the empty map |
| CaughtState.ResetProgress | js/ui.js:595-597 | saves `{}`; afterwards the count is 0 |
| SpeciesLookup.LookupCacheFrom | js/api.js:20-23 | the stored memo map, or `{}` when nothing parsable is stored; a stored non-object is also `{}` (see Left out) |
| SpeciesLookup.FetchedSpecies | js/api.js:39-44 | a positive species id exactly when the fetch succeeds and its URL parses to a non-zero id |
| SpeciesLookup.ResolveSpecies | js/api.js:34-47 | a truthy cached value without fetching, else the fetched species |
| SpeciesLookup.CacheAfter | js/api.js:45-46 | afterwards the id is a hit iff it was one or the fetch resolved; every other key keeps its value |
| SpeciesLookup.Memoised | js/api.js:35-47 | after a successful lookup the next one is a hit with the same answer; other keys untouched |
| SpeciesLookup.GetSpeciesIdForPokemon | js/api.js:34-48 | returns that answer and stores it under the decimal pokemon id after a fetch |
| SpeciesNames.Missing | js/api.js:189 | exactly the ids without a truthy name |
| SpeciesNames.FetchedName | js/api.js:199-210 | the name from one of the two attempts, or `#id` when both fail |
| SpeciesNames.FreshNames | js/api.js:197-211 | one fetched name per missing id |
| SpeciesNames.FetchWithRetry | js/api.js:199-210 | the first of two attempts that succeeds, else `#id` |
| SpeciesNames.FetchMissing | js/api.js:197-211 | the fetch phase fills the map of fetched names |
| SpeciesNames.MergeNames | js/api.js:176-214 | the merge returns the names after loading and the ids that were missing |
| SpeciesNames.NamesAfterLoad | js/api.js:176-214 | every listed id and every name already on the page is present afterwards |
| SpeciesNames.NamesAfterLoadCorrect | js/api.js:176-214 | every id ends with a name; named ids are not fetched and keep theirs; failed ids get `#id` |
| SpeciesNames.StaleCacheDiscarded | js/api.js:180-182 | a stale cache plays no part |
| SpeciesNames.AllNamed | js/api.js:199-214 | if no fetch yields `''`, every id ends with a truthy name |
| SpeciesNames.ReloadFetchesNothing | js/api.js:185-194 | reloading with the saved names as a fresh cache fetches nothing |
| SpeciesNames.CacheOverridesWindow | js/api.js:185 | cached names override the page's names |
| SpeciesNames.NothingMissing | js/api.js:189-191 | with every id named, nothing is fetched |
| SpeciesNames.LoadSpeciesNames | js/api.js:175-217 | merges and saves the names and the metadata stamped at save time |
| Theme.ThemeMode | js/ui.js:505 | `settings.theme \|\| 'light'` is always truthy |
| Theme.ResolveTheme | js/ui.js:29-35 | `'auto'` follows the system, `'dark'` is dark, anything else light |
| Theme.NextMode | js/ui.js:505-513 | the toggle's next mode is `'light'` or `'dark'` |
| Theme.ToggleFlips | js/ui.js:503-515 | when the page mirrors the stored mode, the toggle changes the visible theme, stores the new mode and the page mirrors it again |
| Theme.ToggleTwice | js/ui.js:503-515 | two toggles bring back the first visible theme |
| Theme.ApplyTheme | js/ui.js:43-52 | stores `mode \|\| settings.theme \|\| 'light'` and shows what it resolves to |
| Theme.ToggleTheme | js/ui.js:503-515 | the toggle on the store, keeping page and stored mode in step |
| Theme.AppNextTheme | app.js:930-933 | the older toggle always lands on `'light'` or `'dark'` |
| Theme.AppToggleFlips | app.js:930-933 | the older toggle changes a shown theme, two toggles restore it, and a missing attribute counts as dark |
| Search.TrimStart | js/ui.js:429 | the result is no longer than the input and does not start with ECMAScript white space |
| Search.TrimStartDropsSpaces | js/ui.js:429 | every character dropped from the front is white space |
| Search.TrimStartKeepsRest | js/ui.js:429 | the characters kept are the input's last ones, unchanged |
| Search.TrimEnd | js/ui.js:429 | drops exactly the trailing ECMAScript white space |
| Search.LowerChar | js/ui.js:429 | maps A-Z to the matching a-z letter, keeps every other character, and keeps white space |
| Search.Lower | js/ui.js:429 | lowercases character by character, keeping the length |
| Search.TrimIdempotent | js/ui.js:429 | trimming twice is trimming once |
| Search.LowerIdempotent | js/ui.js:429 | lowercasing twice is lowercasing once |
| Search.NormaliseIdempotent | js/ui.js:429 | normalising the query twice is once, so a query and its normal form mark alike |
| Search.CandidateOf | js/ui.js:297-305 | a cell exposes its slot, species id and label name |
| Search.Candidates | js/ui.js:430 | the placeholders are not searched |
| Search.Marks | js/ui.js:428-465 | one mark per searched cell, in order; `Search.MarksMeaning` gives each mark's meaning |
| Search.MarksMeaning | js/ui.js:428-465 | highlighted iff the query is non-empty and matches; dimmed iff it does not match while another cell does; an empty or unmatched query marks nothing |
| Search.LeadingZeroIgnored | js/ui.js:439 | a leading zero does not change the number |
| Search.NumberQueryFinds | js/ui.js:438-445 | `n`, `#n` and `#0n` query the number n and find cells whose slot or species id is n |
| Search.ZeroQuery | js/ui.js:441-444 | a zero query matches by label only |
| Search.ContainsSlice | js/ui.js:450 | every piece of a string is contained in it |
| Search.NameQueryFinds | js/ui.js:447-451 | any piece of a cell's lowercased name that is not a number query finds the cell |
| Search.CandidatesFollowSlots | js/ui.js:297 | the i-th searched cell carries the i-th global slot number |
| Search.SlotQueryHighlights | js/ui.js:438-458 | searching a global slot number highlights that slot's cell |
| SearchCollapse.NextCollapsed | js/ui.js:536-546 | wide screens expand; past 120px collapse; above 60px expand; in between keep |
| SearchCollapse.AfterScrolls | js/ui.js:534-546 | on mobile, scrolls that end past 120px leave the bar collapsed, scrolls that end above 60px leave it expanded |
| SearchCollapse.OnFocus | js/ui.js:549-551 | focusing the input expands |
| SearchCollapse.BandKeepsState | js/ui.js:536-546 | scrolling within 60..120px never changes the state |
| SearchCollapse.NoFlicker | js/ui.js:534-546 | collapsed stays collapsed at 60px or below the fold; expanded stays expanded at 120px or above |
| SearchCollapse.LastExitDecides | js/ui.js:541-545 | past 120px then anywhere in the band leaves it collapsed |

## Left out

- DOM work is not modelled: element creation, classes, ARIA attributes, headings, toasts, modals, clipboard, `prompt`, scroll-to-top, `history.replaceState` and the dex selector. The model keeps only the rules these handlers apply to the stored maps and the values they compute.
- The box toggle's label texts are not modelled; they differ between the two variants ('Unmark all'/'Mark all' in `js/ui.js`, 'Uncatch all'/'Catch all' in `app.js`).
- Network calls are oracles passed as parameters: the PokeAPI fetches, `fetchSpeciesName` and the pokemon-to-species fetch. JSON payload shapes are not modelled.
- `mapWithConcurrency` is modelled as a sequential map over the list. The worker interleaving is not modelled.
- The retry back-off (`setTimeout` with `Math.random` jitter) is not modelled.
- `pako.deflate`/`pako.inflate` are function parameters. The round-trip is a hypothesis of `CompressedShareCodec.CompressedRoundTrip`, and DEFLATE itself is not modelled.
- `JSON.parse`/`JSON.stringify` and localStorage are typed fields of `Storage.Store`. A stored value is absent, unparseable, some JSON value that is not an object (`NotObject`, one case for all of them), or an object of the expected shape. Stored objects of any other shape are not modelled. The settings, the enabled segments and the cache metadata treat a non-object as the source does: loadSettings and loadEnabledSegments test for an object, and isSpeciesCacheStale finds no truthy `ts` and no matching `idsHash` on one. The caught map, the name cache and the memo cache do not test, and the lines below say how the model differs there.
- Storage.CaughtFrom: a stored non-object is taken as `{}`, while loadCaughtSlots returns it as parsed. For `null`, the reads `caught[slot]` in countCaughtSlots, populateDexSlots and the box toggle throw. For a string, the slots below its length read as caught, because each character is truthy. For a number or a boolean every slot reads as uncaught, but the writes of a cell click and of the box toggle throw in module code, so nothing is saved. CaughtState.CountCaughtSlots, BoxLayout.PopulateDexSlots, CaughtState.ClickCell and CaughtState.ToggleBoxStored inherit this.
- Storage.Store.LoadCaughtSlots: returns `Storage.CaughtFrom` of the stored field, so it takes a stored non-object as `{}` in the same way.
- Storage.NamesFrom: a stored non-object is taken as `{}`. The source spreads the parsed value into the page's names, which gives the same for `null`, numbers and booleans. A stored string instead contributes its characters under the keys 0, 1, …, so the ids below its length start out named by one character and are not fetched.
- Storage.Store.LoadSpeciesCache: returns `Storage.NamesFrom` of the stored field, so a stored string is taken as `{}` in the same way.
- SpeciesLookup.LookupCacheFrom: a stored non-object is taken as `{}`, but `JSON.parse(...) || {}` replaces only falsy values. With a stored truthy number or `true` every lookup misses, and after a successful fetch the write `cache[key] = speciesId` throws in module code, so the lookup fails and buildActiveDexSections falls back to `speciesId: pokemonId`. With a stored string, an id whose decimal key is below the string's length is a hit that returns a one-character string. The model instead returns the fetched species id and stores it, as for `{}`.
- SpeciesLookup.GetSpeciesIdForPokemon: starts from `SpeciesLookup.LookupCacheFrom` of the stored field, so it inherits the differences above.
- An `enabled` field that is present but not an array is not modelled.
- `decodeURIComponent` in the older decoder is the identity. On the URL-safe alphabet that is exact.
- `Number(...)` on long digit strings is exact here, while JavaScript rounds beyond 2^53. The same holds for the integer setting values.
- The progress-bar percentage is not modelled, because it is floating point.
- `toLowerCase`/`toUpperCase` fold only ASCII letters. Other Unicode case mappings are not modelled.
- The older app's `applyTheme` writes the mode under its own `theme-v1` key and reads it at startup. That key is not a field of the store. `Theme.AppNextTheme` models only the choice of the next theme.
- The settings-modal radio sync and the header icon of `applyTheme` are not modelled.
- The older `hydrateSpeciesNames` (the name merge of `app.js`) and `applyNamesToCells` are not modelled; the split modules' `loadSpeciesNames` is.
- `js/main.js` is not part of this model: it is bootstrap wiring, and its running slot sum is covered by `BoxLayout.LayoutSlotNumbers`.
- `BOX_CAPACITY` (30) and `SPECIES_CACHE_TTL_MS` (180 days) come from `app.js:82` and `app.js:93`: the split modules import them from `js/config.js`, which does not define them.
- `js/config.js` and the static tables of `app.js` (dexes, regional form mappings) are inputs here, not constants: `DexEntries.TransformEntries` takes the mapping table as a parameter.
- A slot cell records its position within the section (`BoxLayout.Cell`'s `number`); the padded text `createDexSlot` shows for it is `BoxLayout.DisplayIndex` of that position, which is specified on its own. The cell title and sprite URL are markup and not modelled.
- Sections with the same key are not modelled separately; `Sections.DefaultInclusion` assumes the key is unique.
- SpeciesNames.AllNamed: assumes no fetch yields the empty name, because `fetchSpeciesName` returns `''` when the payload has no English name and no `name` field, and such an id keeps a falsy name.
