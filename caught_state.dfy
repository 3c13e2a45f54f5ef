// Operations on the caught map (slot number to caught flag): counting, the
// single-cell click, the per-box "mark all / unmark all" toggle and the
// reset. Each is a read-modify-write of the stored map.

module CaughtState {
  import opened BitPack
  import opened Storage
  import opened BoxLayout
  import opened DexEntries

  /** The caught slots among 1..n. */
  function CaughtSet(m: CaughtMap, n: nat): (r: set<int>)
    ensures forall s :: s in r <==> 1 <= s <= n && Truthy(m, s)
  {
    set s | 1 <= s <= n && Truthy(m, s)
  }

  /** Caught slots among 1..k, counted one slot at a time. */
  function CountUpTo(m: CaughtMap, k: nat): nat {
    if k == 0 then 0 else CountUpTo(m, k - 1) + (if Truthy(m, k) then 1 else 0)
  }

  /** The count is the number of caught slots in 1..n, so it is at most n
    and keys outside 1..n play no part. */
  lemma {:induction false} CountIsCardinality(m: CaughtMap, n: nat)
    ensures CountUpTo(m, n) == |CaughtSet(m, n)|
    ensures CountUpTo(m, n) <= n
  {
    if n > 0 {
      CountIsCardinality(m, n - 1);
      if Truthy(m, n) {
        assert CaughtSet(m, n) == CaughtSet(m, n - 1) + {n};
      } else {
        assert CaughtSet(m, n) == CaughtSet(m, n - 1);
      }
    }
  }

  /** Two maps that agree on the truthiness of slots 1..n count the same. */
  lemma {:induction false} CountIgnoresOutside(m1: CaughtMap, m2: CaughtMap, n: nat)
    requires forall s :: 1 <= s <= n ==> (Truthy(m1, s) <==> Truthy(m2, s))
    ensures CountUpTo(m1, n) == CountUpTo(m2, n)
  {
    if n > 0 {
      CountIgnoresOutside(m1, m2, n - 1);
    }
  }

  /** countCaughtSlots: the loop over slots 1..slotCount. */
  method CountCaughtSlots(m: CaughtMap, slotCount: nat) returns (total: nat)
    ensures total == CountUpTo(m, slotCount)
    ensures total == |CaughtSet(m, slotCount)| && total <= slotCount
  {
    total := 0;
    var slot := 1;
    while slot <= slotCount
      invariant 1 <= slot <= slotCount + 1
      invariant total == CountUpTo(m, slot - 1)
    {
      if slot in m && m[slot] {
        total := total + 1;
      }
      slot := slot + 1;
    }
    CountIsCardinality(m, slotCount);
  }

  // ---------------------------------------------------------------------------
  // The single-cell click.

  /** The map the click handler saves: the clicked slot is set to the
    negation of the cell's `caught` class; every other key is untouched. */
  function Flip(m: CaughtMap, slot: int, cellCaught: bool): (r: CaughtMap)
    ensures slot in r && r[slot] == !cellCaught
    ensures forall s :: s != slot ==> (s in r <==> s in m) && (s in m ==> r[s] == m[s])
  {
    m[slot := !cellCaught]
  }

  /** When the cell's class mirrors the stored value, a click flips exactly
    that slot's truthiness, changes the count by one, and a second click
    restores the slot's truthiness. */
  lemma {:induction false} ClickFlips(m: CaughtMap, slot: int, n: nat)
    ensures Truthy(Flip(m, slot, Truthy(m, slot)), slot) == !Truthy(m, slot)
    ensures forall s :: s != slot ==> (Truthy(Flip(m, slot, Truthy(m, slot)), s) <==> Truthy(m, s))
    ensures Truthy(Flip(Flip(m, slot, Truthy(m, slot)), slot, !Truthy(m, slot)), slot) == Truthy(m, slot)
    ensures 1 <= slot <= n ==>
      CountUpTo(Flip(m, slot, Truthy(m, slot)), n)
        == if Truthy(m, slot) then CountUpTo(m, n) - 1 else CountUpTo(m, n) + 1
    ensures !(1 <= slot <= n) ==> CountUpTo(Flip(m, slot, Truthy(m, slot)), n) == CountUpTo(m, n)
  {
    var f := Flip(m, slot, Truthy(m, slot));
    CountIsCardinality(m, n);
    CountIsCardinality(f, n);
    if 1 <= slot <= n {
      if Truthy(m, slot) {
        assert CaughtSet(m, n) == CaughtSet(f, n) + {slot};
      } else {
        assert CaughtSet(f, n) == CaughtSet(m, n) + {slot};
      }
    } else {
      assert CaughtSet(f, n) == CaughtSet(m, n);
    }
  }

  /** The click handler: load, flip, save. Returns the cell's new state. */
  method ClickCell(store: Store, slot: int, cellCaught: bool, writeOk: bool) returns (isCaught: bool)
    modifies store
    ensures isCaught == !cellCaught
    ensures store.caught == if writeOk then Object(Flip(CaughtFrom(old(store.caught)), slot, cellCaught))
                            else old(store.caught)
    ensures store.settings == old(store.settings) && store.speciesNames == old(store.speciesNames)
    ensures store.speciesMeta == old(store.speciesMeta) && store.segments == old(store.segments)
    ensures store.pokemonToSpecies == old(store.pokemonToSpecies)
  {
    var nextCaught := store.LoadCaughtSlots();
    isCaught := !cellCaught;
    nextCaught := nextCaught[slot := isCaught];
    store.SaveCaughtSlots(nextCaught, writeOk);
  }

  // ---------------------------------------------------------------------------
  // The per-box toggle.

  /** `cells.every(cell => caught[slot])`: true for an empty box. */
  predicate AllCaught(m: CaughtMap, slots: seq<int>) {
    forall i :: 0 <= i < |slots| ==> Truthy(m, slots[i])
  }

  /** Every listed slot set to `v`, all other keys kept. */
  function SetAll(m: CaughtMap, slots: seq<int>, v: bool): (r: CaughtMap)
    ensures forall s :: s in slots ==> s in r && r[s] == v
    ensures forall s :: s !in slots ==> (s in r <==> s in m) && (s in m ==> r[s] == m[s])
  {
    if slots == [] then m
    else SetAll(m, slots[..|slots| - 1], v)[slots[|slots| - 1] := v]
  }

  /** The toggle click: `allCaught` over the box's interactive slots, then
    every one of them set to `!allCaught`. */
  method ToggleBox(m: CaughtMap, slots: seq<int>) returns (next: CaughtMap, allCaught: bool)
    ensures allCaught == AllCaught(m, slots)
    ensures next == SetAll(m, slots, !allCaught)
  {
    allCaught := forall i :: 0 <= i < |slots| ==> slots[i] in m && m[slots[i]];
    next := m;
    var i := 0;
    while i < |slots|
      invariant 0 <= i <= |slots|
      invariant next == SetAll(m, slots[..i], !allCaught)
    {
      assert slots[..i + 1][..i] == slots[..i];
      next := next[slots[i] := !allCaught];
      i := i + 1;
    }
    assert slots[..i] == slots;
  }

  /** Writing `v` to every slot of a non-empty box makes `allCaught` read `v`. */
  lemma AllCaughtAfterSetAll(m: CaughtMap, slots: seq<int>, v: bool)
    requires slots != []
    ensures AllCaught(SetAll(m, slots, v), slots) == v
  {
    var r := SetAll(m, slots, v);
    if v {
      forall i | 0 <= i < |slots|
        ensures Truthy(r, slots[i])
      {
        assert slots[i] in slots;
      }
    } else {
      assert slots[0] in slots;
      assert !Truthy(r, slots[0]);
    }
  }

  /** A second write to the same slots replaces the first. */
  lemma SetAllTwice(m: CaughtMap, slots: seq<int>, v: bool, w: bool)
    ensures SetAll(SetAll(m, slots, v), slots, w) == SetAll(m, slots, w)
  {
    var twice := SetAll(SetAll(m, slots, v), slots, w);
    var direct := SetAll(m, slots, w);
    assert twice.Keys == direct.Keys;
    forall s | s in twice
      ensures twice[s] == direct[s]
    {
    }
  }

  /** After a toggle of a non-empty box, the label's next `allCaught` is the
    value just written; toggling again writes the original `allCaught`, so
    a box that was all caught or all uncaught gets its state back; slots
    outside the box keep their values. */
  lemma ToggleLaws(m: CaughtMap, slots: seq<int>)
    requires slots != []
    ensures var v := !AllCaught(m, slots);
      && AllCaught(SetAll(m, slots, v), slots) == v
      && SetAll(SetAll(m, slots, v), slots, !AllCaught(SetAll(m, slots, v), slots))
         == SetAll(m, slots, !v)
      && (forall s :: s !in slots ==> (Truthy(SetAll(m, slots, v), s) <==> Truthy(m, s)))
  {
    var v := !AllCaught(m, slots);
    AllCaughtAfterSetAll(m, slots, v);
    SetAllTwice(m, slots, v, !v);
  }

  /** The toggle handler on the store: load, toggle, save. */
  method ToggleBoxStored(store: Store, slots: seq<int>, writeOk: bool) returns (allCaught: bool)
    modifies store
    ensures allCaught == AllCaught(CaughtFrom(old(store.caught)), slots)
    ensures store.caught == if writeOk then Object(SetAll(CaughtFrom(old(store.caught)), slots, !allCaught))
                            else old(store.caught)
    ensures store.settings == old(store.settings) && store.speciesNames == old(store.speciesNames)
    ensures store.speciesMeta == old(store.speciesMeta) && store.segments == old(store.segments)
    ensures store.pokemonToSpecies == old(store.pokemonToSpecies)
  {
    var caught := store.LoadCaughtSlots();
    var next;
    next, allCaught := ToggleBox(caught, slots);
    store.SaveCaughtSlots(next, writeOk);
  }

  /** The interactive slots of box `b` of section `si`: what a box's toggle
    acts on. */
  function BoxSlots(cells: seq<Cell>, si: nat, b: nat): seq<int> {
    if cells == [] then []
    else
      var k := |cells| - 1;
      BoxSlots(cells[..k], si, b)
        + (if cells[k].Slot? && cells[k].section == si && cells[k].box == b then [cells[k].slot] else [])
  }

  lemma {:induction false} BoxSlotsPrefix(cs: seq<Cell>, si: nat, n: nat, start: int, b: nat, k: nat)
    requires k <= |cs|
    requires forall i :: 0 <= i < |cs| ==> cs[i].section == si && cs[i].box == i / BoxCapacity
    requires forall i :: 0 <= i < |cs| ==> (cs[i].Slot? <==> i < n)
    requires forall i :: 0 <= i < |cs| && i < n ==> cs[i].slot == start + i
    ensures var bs := BoxSlots(cs[..k], si, b);
      && |bs| == (if Min(Min(k, n), (b + 1) * BoxCapacity) <= b * BoxCapacity then 0
                  else Min(Min(k, n), (b + 1) * BoxCapacity) - b * BoxCapacity)
      && forall j :: 0 <= j < |bs| ==> bs[j] == start + b * BoxCapacity + j
  {
    if k > 0 {
      BoxSlotsPrefix(cs, si, n, start, b, k - 1);
      assert cs[..k][..k - 1] == cs[..k - 1];
      var i := k - 1;
      assert cs[i].box == i / BoxCapacity;
      assert (i / BoxCapacity == b) <==> (b * BoxCapacity <= i < (b + 1) * BoxCapacity);
    }
  }

  /** The toggle of box `b` acts on exactly the global slots of that box's
    rendered range, in order. */
  lemma BoxToggleCoversRange(si: nat, entries: seq<Entry>, start: int, caught: CaughtMap,
                             names: map<int, string>, b: nat)
    requires b < BoxCount(|entries|)
    ensures var bs := BoxSlots(SectionCells(si, entries, start, caught, names), si, b);
      var r := Boxes(|entries|, start)[b];
      && |bs| == r.globalEnd - r.globalStart + 1
      && forall j :: 0 <= j < |bs| ==> bs[j] == r.globalStart + j
  {
    var cs := SectionCells(si, entries, start, caught, names);
    SectionFill(si, entries, start, caught, names);
    BoxSlotsPrefix(cs, si, |entries|, start, b, |cs|);
    assert cs[..|cs|] == cs;
  }

  // ---------------------------------------------------------------------------
  // Reset.

  /** Nothing is caught in the empty map. */
  lemma {:induction false} CountEmpty(n: nat)
    ensures CountUpTo(map[], n) == 0
  {
    if n > 0 {
      CountEmpty(n - 1);
    }
  }

  /** resetProgress: saves the empty map; afterwards the count is 0. */
  method ResetProgress(store: Store, slotCount: nat, writeOk: bool)
    modifies store
    ensures store.caught == if writeOk then Object(map[]) else old(store.caught)
    ensures writeOk ==> CountUpTo(CaughtFrom(store.caught), slotCount) == 0
    ensures store.settings == old(store.settings) && store.speciesNames == old(store.speciesNames)
    ensures store.speciesMeta == old(store.speciesMeta) && store.segments == old(store.segments)
    ensures store.pokemonToSpecies == old(store.pokemonToSpecies)
  {
    store.SaveCaughtSlots(map[], writeOk);
    CountEmpty(slotCount);
  }
}
