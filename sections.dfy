/**
 * Section composition: `computeActiveSections` of the monolithic app and
 * `buildActiveDexSections` of the split API module. A game's dex is a list of
 * segments; a segment is shown when it is mandatory or enabled, and becomes a
 * section when it yields at least one entry.
 *
 * The network-backed pieces are parameters: `load(pokedexId)` is the whole
 * `loadPokedexEntries` call (`None` when it throws) and `resolve(pokemonId)`
 * is the whole `geSpeciesIdForPokemon` call (`None` when it throws).
 * `mapWithConcurrency` is an order-preserving map, `results[i] = task(list[i])`.
 */
module Sections {
  import opened Wrappers
  import opened DexEntries

  /** A configured segment. `pokedexId == 0` stands for a missing (falsy) id;
    the monolithic app calls the fields `key`/`kind`/`pokedex`, the split
    modules `id`/`type`/`pokedexId`. */
  datatype Segment = Segment(key: string, title: string, kind: string, optional: bool,
                             manualIds: Option<seq<int>>, pokedexId: int)

  datatype Section = Section(key: string, title: string, kind: string, entries: seq<Entry>)

  /** What a segment yields: an exception, nothing to show, or entries. */
  datatype Fill = Failed | Skip | Filled(entries: seq<Entry>)

  type Loader = int -> Option<seq<Entry>>
  type Resolver = int -> Option<int>

  /** What the loop body consults besides the segment itself. */
  datatype Env = Env(enabled: set<string>, resolveForms: bool, resolve: Resolver, load: Loader)

  /** `new Set(segments.filter(s => !s.optional).map(s => s.key))`. */
  function DefaultEnabled(segs: seq<Segment>): (r: set<string>)
    ensures forall k :: k in r <==> exists i :: 0 <= i < |segs| && !segs[i].optional && segs[i].key == k
  {
    set i | 0 <= i < |segs| && !segs[i].optional :: segs[i].key
  }

  /** `loadEnabledSegments() || default`; a stored set is used even when empty. */
  function EnabledSet(stored: Option<set<string>>, segs: seq<Segment>): (r: set<string>)
    ensures stored.Some? ==> r == stored.value
    ensures stored.None? ==>
      forall k :: k in r <==> exists i :: 0 <= i < |segs| && !segs[i].optional && segs[i].key == k
  {
    if stored.Some? then stored.value else DefaultEnabled(segs)
  }

  /** `!seg.optional || enabled.has(seg.key)`. */
  predicate Included(seg: Segment, enabled: set<string>) {
    !seg.optional || seg.key in enabled
  }

  /** Entries of a manual segment. With `resolveForms` (the split modules), a
    `forms` segment resolves each pokemon id to its species and falls back to
    the id itself; otherwise every id is its own species and form. */
  function ManualEntries(ids: seq<int>, kind: string, resolveForms: bool, resolve: Resolver): (r: seq<Entry>)
    ensures |r| == |ids|
    ensures forall i :: 0 <= i < |ids| ==> r[i].formId == ids[i]
    ensures forall i :: 0 <= i < |ids| ==>
      r[i].speciesId == (if resolveForms && kind == "forms" then resolve(ids[i]).GetOr(ids[i]) else ids[i])
  {
    if resolveForms && kind == "forms" then
      seq(|ids|, i requires 0 <= i < |ids| => Entry(resolve(ids[i]).GetOr(ids[i]), ids[i]))
    else
      seq(|ids|, i requires 0 <= i < |ids| => Entry(ids[i], ids[i]))
  }

  function FillOf(seg: Segment, env: Env): Fill {
    if seg.manualIds.Some? then Filled(ManualEntries(seg.manualIds.value, seg.kind, env.resolveForms, env.resolve))
    else if seg.pokedexId != 0 then
      match env.load(seg.pokedexId)
      case None => Failed
      case Some(es) => Filled(es)
    else Skip
  }

  /** The entries a segment contributes; empty unless it filled. */
  function EntriesOf(seg: Segment, env: Env): seq<Entry> {
    match FillOf(seg, env)
    case Filled(es) => es
    case _ => []
  }

  /** Whether a segment ends up as a section. */
  predicate Kept(seg: Segment, env: Env) {
    Included(seg, env.enabled) && FillOf(seg, env).Filled? && |EntriesOf(seg, env)| > 0
  }

  predicate Fails(seg: Segment, env: Env) {
    Included(seg, env.enabled) && FillOf(seg, env).Failed?
  }

  function SectionOf(seg: Segment, entries: seq<Entry>): Section {
    Section(seg.key, seg.title, seg.kind, entries)
  }

  /** One pass of the loop body. */
  function Step(acc: Option<seq<Section>>, seg: Segment, env: Env): Option<seq<Section>>
  {
    match acc
    case None => None
    case Some(sections) =>
      if !Included(seg, env.enabled) then acc
      else
        match FillOf(seg, env)
        case Failed => None
        case Skip => acc
        case Filled(es) => if |es| == 0 then acc else Some(sections + [SectionOf(seg, es)])
  }

  /** The sections of the segments `segs`, in order; `None` when a call throws. */
  function Active(segs: seq<Segment>, env: Env): (r: Option<seq<Section>>)
    ensures r.Some? ==> |r.value| <= |segs|
  {
    if segs == [] then Some([])
    else Step(Active(segs[..|segs| - 1], env), segs[|segs| - 1], env)
  }

  /** Indices of the segments that become sections, ascending. */
  function KeptIndices(segs: seq<Segment>, env: Env): (r: seq<nat>)
    ensures forall k :: 0 <= k < |r| ==> r[k] < |segs|
  {
    if segs == [] then []
    else KeptIndices(segs[..|segs| - 1], env) + (if Kept(segs[|segs| - 1], env) then [|segs| - 1] else [])
  }

  /** The composition fails exactly when an included segment's call throws. */
  lemma {:induction false} ActiveFails(segs: seq<Segment>, env: Env)
    ensures Active(segs, env).None? <==> exists i :: 0 <= i < |segs| && Fails(segs[i], env)
  {
    if segs != [] {
      var pre := segs[..|segs| - 1];
      ActiveFails(pre, env);
      if Active(pre, env).None? {
        var i :| 0 <= i < |pre| && Fails(pre[i], env);
        assert segs[i] == pre[i];
      } else if !Fails(segs[|segs| - 1], env) {
        forall i | 0 <= i < |segs|
          ensures !Fails(segs[i], env)
        {
          if i < |pre| {
            assert segs[i] == pre[i];
          }
        }
      }
    }
  }

  /** Without a failure, the sections are the kept segments in declared
    order: each takes key, title and kind from its segment and has at least
    one entry, and a segment is kept exactly when it is included and yields
    entries. */
  lemma {:induction false} ActiveKept(segs: seq<Segment>, env: Env)
    requires Active(segs, env).Some?
    ensures var out := Active(segs, env).value;
      var idx := KeptIndices(segs, env);
      |out| == |idx| &&
      (forall k :: 0 <= k < |out| ==> out[k] == SectionOf(segs[idx[k]], EntriesOf(segs[idx[k]], env))) &&
      (forall k :: 0 <= k < |out| ==> |out[k].entries| > 0) &&
      (forall k, l :: 0 <= k < l < |idx| ==> idx[k] < idx[l]) &&
      (forall i :: 0 <= i < |segs| ==> (i in idx <==> Kept(segs[i], env)))
  {
    if segs != [] {
      var pre := segs[..|segs| - 1];
      var last := segs[|segs| - 1];
      ActiveStep(segs, env);
      ActiveKept(pre, env);
      var out, outPre := Active(segs, env).value, Active(pre, env).value;
      var idx, idxPre := KeptIndices(segs, env), KeptIndices(pre, env);
      forall k | 0 <= k < |out|
        ensures out[k] == SectionOf(segs[idx[k]], EntriesOf(segs[idx[k]], env)) && |out[k].entries| > 0
      {
        if k < |outPre| {
          assert out[k] == outPre[k] && idx[k] == idxPre[k];
          assert segs[idxPre[k]] == pre[idxPre[k]];
        }
      }
      forall k, l | 0 <= k < l < |idx|
        ensures idx[k] < idx[l]
      {
        assert idx[k] == idxPre[k];
        if l < |idxPre| {
          assert idx[l] == idxPre[l];
        }
      }
      forall i | 0 <= i < |segs|
        ensures i in idx <==> Kept(segs[i], env)
      {
        if i < |pre| {
          assert segs[i] == pre[i];
          assert i in idx <==> i in idxPre;
        }
      }
    }
  }

  /** One more segment adds one section and one index exactly when it is
    kept. */
  lemma ActiveStep(segs: seq<Segment>, env: Env)
    requires segs != [] && Active(segs, env).Some?
    ensures var pre := segs[..|segs| - 1];
      var last := segs[|segs| - 1];
      && Active(pre, env).Some?
      && Active(segs, env).value
         == Active(pre, env).value + (if Kept(last, env) then [SectionOf(last, EntriesOf(last, env))] else [])
      && KeptIndices(segs, env) == KeptIndices(pre, env) + (if Kept(last, env) then [|segs| - 1] else [])
  {
    var pre := segs[..|segs| - 1];
    var last := segs[|segs| - 1];
    assert Active(segs, env) == Step(Active(pre, env), last, env);
    if !Kept(last, env) {
      assert Active(pre, env).value + [] == Active(pre, env).value;
    }
  }

  /** A failure stays a failure as the loop goes on. */
  lemma {:induction false} FailureSticks(segs: seq<Segment>, j: nat, env: Env)
    requires j <= |segs|
    requires Active(segs[..j], env).None?
    ensures Active(segs, env).None?
    decreases |segs| - j
  {
    if j < |segs| {
      assert segs[..j + 1][..j] == segs[..j];
      FailureSticks(segs, j + 1, env);
    } else {
      assert segs[..j] == segs;
    }
  }

  /** With nothing stored, a segment whose key is unique is shown exactly
    when it is mandatory. */
  lemma DefaultInclusion(segs: seq<Segment>, i: nat)
    requires i < |segs|
    requires forall j :: 0 <= j < |segs| && segs[j].key == segs[i].key ==> j == i
    ensures Included(segs[i], EnabledSet(None, segs)) <==> !segs[i].optional
  {
  }

  /** `buildActiveDexSections()`: the loop pushes one section per kept segment,
    resolving forms segments, and stops at the first exception. */
  method BuildActiveDexSections(segs: seq<Segment>, stored: Option<set<string>>,
                                resolve: Resolver, load: Loader) returns (r: Option<seq<Section>>)
    ensures r == Active(segs, Env(EnabledSet(stored, segs), true, resolve, load))
  {
    var enabled := EnabledSet(stored, segs);
    ghost var env := Env(enabled, true, resolve, load);
    var sections: seq<Section> := [];
    var i := 0;
    while i < |segs|
      invariant 0 <= i <= |segs|
      invariant Active(segs[..i], env) == Some(sections)
    {
      var seg := segs[i];
      assert segs[..i + 1][..i] == segs[..i];
      if Included(seg, enabled) {
        if seg.manualIds.Some? {
          var entries := ManualEntries(seg.manualIds.value, seg.kind, true, resolve);
          if |entries| > 0 {
            sections := sections + [SectionOf(seg, entries)];
          }
        } else if seg.pokedexId != 0 {
          var loaded := load(seg.pokedexId);
          if loaded.None? {
            FailureSticks(segs, i + 1, env);
            return None;
          }
          if |loaded.value| > 0 {
            sections := sections + [SectionOf(seg, loaded.value)];
          }
        }
      }
      i := i + 1;
    }
    assert segs[..i] == segs;
    r := Some(sections);
  }

  /** The monolithic app never resolves forms; its resolver is never consulted. */
  function Unresolved(pokemonId: int): Option<int> { None }

  /** The monolithic app's configuration of one dex. */
  datatype DexConfig = DexConfig(composite: bool, title: string, pokedex: int, segments: seq<Segment>)

  /** `computeActiveSections()`: a non-composite dex is a single `base` section
    (kept even when empty); a composite one is composed as above, except that
    manual ids are never resolved. */
  method ComputeActiveSections(config: DexConfig, stored: Option<set<string>>, load: Loader)
    returns (r: Option<seq<Section>>)
    ensures !config.composite ==>
      r == (match load(config.pokedex)
            case None => None
            case Some(es) => Some([Section("base", config.title, "base", es)]))
    ensures config.composite ==>
      r == Active(config.segments, Env(EnabledSet(stored, config.segments), false, Unresolved, load))
  {
    if !config.composite {
      var entries := load(config.pokedex);
      if entries.None? {
        return None;
      }
      return Some([Section("base", config.title, "base", entries.value)]);
    }
    var segs := config.segments;
    var enabled := EnabledSet(stored, segs);
    ghost var env := Env(enabled, false, Unresolved, load);
    var sections: seq<Section> := [];
    var i := 0;
    while i < |segs|
      invariant 0 <= i <= |segs|
      invariant Active(segs[..i], env) == Some(sections)
    {
      var seg := segs[i];
      assert segs[..i + 1][..i] == segs[..i];
      if Included(seg, enabled) {
        if seg.manualIds.Some? {
          var ids := seg.manualIds.value;
          var entries := seq(|ids|, k requires 0 <= k < |ids| => Entry(ids[k], ids[k]));
          assert entries == ManualEntries(ids, seg.kind, false, Unresolved);
          if |entries| > 0 {
            sections := sections + [SectionOf(seg, entries)];
          }
        } else if seg.pokedexId != 0 {
          var loaded := load(seg.pokedexId);
          if loaded.None? {
            FailureSticks(segs, i + 1, env);
            return None;
          }
          if |loaded.value| > 0 {
            sections := sections + [SectionOf(seg, loaded.value)];
          }
        }
      }
      i := i + 1;
    }
    assert segs[..i] == segs;
    r := Some(sections);
  }
}
