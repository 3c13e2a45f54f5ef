// Storage boxes and the cells placed in them.
//
// A section of `n` entries is shown as ceil(n / 30) boxes. Every entry
// becomes one interactive cell carrying a global slot number (continuous
// across sections, starting at 1), a per-section display index ("001",
// "002", ...) and the box it is placed in; the last, partially filled box of
// a section is padded with placeholder cells that carry no slot.

module BoxLayout {
  import opened BitPack
  import opened Decimal
  import opened DexEntries
  import opened Sections

  /** BOX_CAPACITY: slots per storage box. The split modules import it from
    `js/config.js`, which does not define it; the value is the one in
    `app.js`. */
  const BoxCapacity: nat := 30

  /** `Math.ceil(n / BOX_CAPACITY)`: the fewest boxes that hold `n` slots. */
  function BoxCount(n: nat): (c: nat)
    ensures c * BoxCapacity >= n
    ensures c > 0 ==> (c - 1) * BoxCapacity < n
    ensures c == 0 <==> n == 0
  {
    (n + BoxCapacity - 1) / BoxCapacity
  }

  function Min(a: int, b: int): (m: int)
    ensures m <= a && m <= b && (m == a || m == b)
  {
    if a <= b then a else b
  }

  /** The numbers shown in a box's heading (local, 1-based) and the range of
    global slots its toggle button covers. */
  datatype BoxRange = BoxRange(localStart: int, localEnd: int, globalStart: int, globalEnd: int)

  /** The range of box `b` of a section of `n` slots whose first global slot
    is `start`. */
  function BoxAt(n: nat, start: int, b: int): BoxRange {
    var localEnd := Min((b + 1) * BoxCapacity, n);
    BoxRange(b * BoxCapacity + 1, localEnd, start + b * BoxCapacity,
             Min(start + localEnd - 1, start + n - 1))
  }

  /** The boxes of one section, in order, as the renderer creates them. */
  function Boxes(n: nat, start: int): (r: seq<BoxRange>)
    ensures |r| == BoxCount(n)
  {
    seq(BoxCount(n), b => BoxAt(n, start, b))
  }

  /** The render loop: one box per iteration. */
  method RenderBoxes(n: nat, start: int) returns (boxes: seq<BoxRange>)
    ensures boxes == Boxes(n, start)
  {
    var boxCount := (n + BoxCapacity - 1) / BoxCapacity;
    boxes := [];
    var boxIndex := 0;
    while boxIndex < boxCount
      invariant 0 <= boxIndex <= boxCount
      invariant boxes == Boxes(n, start)[..boxIndex]
    {
      var localStart := boxIndex * BoxCapacity + 1;
      var localEnd := Min((boxIndex + 1) * BoxCapacity, n);
      var globalStart := start + boxIndex * BoxCapacity;
      var globalEnd := Min(start + localEnd - 1, start + n - 1);
      boxes := boxes + [BoxRange(localStart, localEnd, globalStart, globalEnd)];
      boxIndex := boxIndex + 1;
    }
  }

  /** The boxes split the section's slots `start .. start + n - 1` into
    consecutive runs: the first starts at local 1, each next one starts right
    after the previous one, the last ends at `n`, every box but the last is
    full and none holds more than 30; the global range is the local range
    shifted by `start - 1`. */
  lemma BoxesPartition(n: nat, start: int)
    ensures var r := Boxes(n, start);
      && (n > 0 ==> r[0].localStart == 1 && r[|r| - 1].localEnd == n)
      && (forall b :: 0 <= b < |r| ==>
            && 1 <= r[b].localEnd - r[b].localStart + 1 <= BoxCapacity
            && r[b].globalStart == start + r[b].localStart - 1
            && r[b].globalEnd == start + r[b].localEnd - 1)
      && (forall b :: 0 <= b < |r| - 1 ==>
            && r[b].localEnd - r[b].localStart + 1 == BoxCapacity
            && r[b + 1].localStart == r[b].localEnd + 1)
  {
  }

  /** A cell of a box grid: an interactive slot or an inert placeholder. A
    slot records its 1-based position `number` within the section; the text
    it shows for it is `DisplayIndex(number - 1)`. */
  datatype Cell =
    | Slot(section: nat, box: nat, slot: int, number: nat,
           speciesId: int, formId: int, name: string, caught: bool)
    | Placeholder(section: nat, box: nat)

  /** `window.__livingDexNames?.[speciesId] || '#' + speciesId`. */
  function DisplayName(names: map<int, string>, speciesId: int): (r: string)
    ensures speciesId in names && names[speciesId] != "" ==> r == names[speciesId]
    ensures !(speciesId in names && names[speciesId] != "") ==> r == "#" + IntToString(speciesId)
    ensures r != ""
  {
    if speciesId in names && names[speciesId] != "" then names[speciesId]
    else "#" + IntToString(speciesId)
  }

  /** `String(e + 1).padStart(3, '0')`. */
  function DisplayIndex(e: nat): string {
    PadStart(NatToString(e + 1), 3)
  }

  /** The display index is at least three digits and reads back as the
    1-based position it shows. */
  lemma DisplayIndexReadsBack(e: nat)
    ensures |DisplayIndex(e)| >= 3 && AllDigits(DisplayIndex(e))
    ensures DigitsValue(DisplayIndex(e)) == e + 1
  {
    PadStartValue(NatToString(e + 1), 3);
    DigitsValueOfString(e + 1);
  }

  /** The cell for the `e`-th entry of section `si`, whose global slot is
    `slot`. */
  function SlotCell(si: nat, e: nat, slot: int, entry: Entry, caught: CaughtMap,
                    names: map<int, string>): Cell {
    Slot(si, e / BoxCapacity, slot, e + 1, entry.speciesId, entry.formId,
         DisplayName(names, entry.speciesId), Truthy(caught, slot))
  }

  /** The slot cells of one section, the first at global slot `start`. */
  function SlotCells(si: nat, entries: seq<Entry>, start: int, caught: CaughtMap,
                     names: map<int, string>): (r: seq<Cell>)
    ensures |r| == |entries|
  {
    seq(|entries|, e requires 0 <= e < |entries| =>
      SlotCell(si, e, start + e, entries[e], caught, names))
  }

  /** How many placeholders pad the last box of a section of `n` slots. */
  function PlaceholderCount(n: nat): (k: nat)
    ensures k < BoxCapacity
    ensures (n + k) % BoxCapacity == 0
    ensures k == 0 <==> n % BoxCapacity == 0
  {
    if n % BoxCapacity == 0 then 0 else BoxCapacity - n % BoxCapacity
  }

  function Placeholders(si: nat, box: nat, k: nat): (r: seq<Cell>)
    ensures |r| == k
  {
    seq(k, _ => Placeholder(si, box))
  }

  /** Everything placed for section `si`: its slot cells in entry order, then
    the placeholders of its last box. */
  function SectionCells(si: nat, entries: seq<Entry>, start: int, caught: CaughtMap,
                        names: map<int, string>): seq<Cell> {
    SlotCells(si, entries, start, caught, names)
      + Placeholders(si, |entries| / BoxCapacity, PlaceholderCount(|entries|))
  }

  /** Number of slots of all sections together. */
  function TotalSlots(sections: seq<Section>): nat {
    if sections == [] then 0
    else TotalSlots(sections[..|sections| - 1]) + |sections[|sections| - 1].entries|
  }

  /** The cells of all sections, in render order. */
  function Layout(sections: seq<Section>, caught: CaughtMap, names: map<int, string>): seq<Cell> {
    if sections == [] then []
    else
      var k := |sections| - 1;
      Layout(sections[..k], caught, names)
        + SectionCells(k, sections[k].entries, 1 + TotalSlots(sections[..k]), caught, names)
  }

  /** The box cursor and the count of cells in the current box are the
    quotient and remainder of the section index by 30. */
  lemma BoxOf(i: nat, cursor: int, placed: int)
    requires 0 <= placed < BoxCapacity && i == cursor * BoxCapacity + placed
    ensures cursor == i / BoxCapacity && placed == i % BoxCapacity
  {
  }

  lemma PlaceholdersSnoc(si: nat, box: nat, k: nat)
    ensures Placeholders(si, box, k) + [Placeholder(si, box)] == Placeholders(si, box, k + 1)
  {
  }

  /** One step of the entries loop: with the box cursor and the count of
    the current box, the cell built for entry `e` extends the first `e` slot
    cells by the next one. */
  lemma PlaceStep(si: nat, entries: seq<Entry>, start: int, caught: CaughtMap,
                  names: map<int, string>, done: seq<Cell>, e: nat, boxCursor: int, placed: int)
    requires e < |entries| && done == SlotCells(si, entries, start, caught, names)[..e]
    requires 0 <= placed < BoxCapacity && e == boxCursor * BoxCapacity + placed
    ensures done + [Slot(si, boxCursor, start + e, e + 1, entries[e].speciesId, entries[e].formId,
                         DisplayName(names, entries[e].speciesId), Truthy(caught, start + e))]
      == SlotCells(si, entries, start, caught, names)[..e + 1]
  {
    var slots := SlotCells(si, entries, start, caught, names);
    BoxOf(e, boxCursor, placed);
    assert slots[e] == SlotCell(si, e, start + e, entries[e], caught, names);
    assert slots[..e + 1] == slots[..e] + [slots[e]];
  }

  /** The entries loop of populateDexSlots for one section: walks the
    entries with the global slot counter, a per-section index, a box cursor
    and a count of cells in the current box, moving to the next box after
    30 cells. Returns the cells, the advanced global counter and the final
    cursor and count. */
  method PlaceSlots(si: nat, entries: seq<Entry>, start: int, caught: CaughtMap,
                    names: map<int, string>)
    returns (cells: seq<Cell>, next: int, boxCursor: int, placed: int)
    ensures cells == SlotCells(si, entries, start, caught, names)
    ensures next == start + |entries|
    ensures boxCursor == |entries| / BoxCapacity && placed == |entries| % BoxCapacity
  {
    cells := [];
    next := start;
    var localIndex := 0;
    boxCursor := 0;
    placed := 0;
    ghost var slots := SlotCells(si, entries, start, caught, names);
    while localIndex < |entries|
      invariant 0 <= localIndex <= |entries|
      invariant next == start + localIndex
      invariant 0 <= placed < BoxCapacity && localIndex == boxCursor * BoxCapacity + placed
      invariant cells == slots[..localIndex]
    {
      var entry := entries[localIndex];
      var cell := Slot(si, boxCursor, next, localIndex + 1,
                       entry.speciesId, entry.formId, DisplayName(names, entry.speciesId),
                       Truthy(caught, next));
      PlaceStep(si, entries, start, caught, names, cells, localIndex, boxCursor, placed);
      cells := cells + [cell];
      next := next + 1;
      localIndex := localIndex + 1;
      placed := placed + 1;
      if placed >= BoxCapacity {
        boxCursor := boxCursor + 1;
        placed := 0;
      }
    }
    assert slots[..localIndex] == slots;
    BoxOf(localIndex, boxCursor, placed);
  }

  /** The placeholder loop of populateDexSlots: while the current box is
    partly filled, add a placeholder to it. */
  method PadLastBox(si: nat, boxCursor: nat, placed: nat) returns (pads: seq<Cell>)
    requires placed < BoxCapacity
    ensures pads == Placeholders(si, boxCursor, if placed == 0 then 0 else BoxCapacity - placed)
  {
    pads := [];
    var count := placed;
    while 0 < count < BoxCapacity
      invariant placed == 0 ==> count == 0
      invariant placed != 0 ==> placed <= count <= BoxCapacity
      invariant pads == Placeholders(si, boxCursor, count - placed)
      decreases BoxCapacity - count
    {
      PlaceholdersSnoc(si, boxCursor, count - placed);
      pads := pads + [Placeholder(si, boxCursor)];
      count := count + 1;
    }
  }

  /** The body of populateDexSlots for one section. */
  method PlaceSection(si: nat, entries: seq<Entry>, start: int, caught: CaughtMap,
                      names: map<int, string>)
    returns (cells: seq<Cell>, next: int)
    ensures cells == SectionCells(si, entries, start, caught, names)
    ensures next == start + |entries|
  {
    var slots, boxCursor, placed;
    slots, next, boxCursor, placed := PlaceSlots(si, entries, start, caught, names);
    var pads := PadLastBox(si, boxCursor, placed);
    cells := slots + pads;
  }

  /** populateDexSlots: places every section in turn, carrying the global
    slot counter from one section to the next. */
  method PopulateDexSlots(sections: seq<Section>, caught: CaughtMap, names: map<int, string>)
    returns (cells: seq<Cell>)
    ensures cells == Layout(sections, caught, names)
  {
    cells := [];
    var globalSlotIndex := 1;
    var si := 0;
    while si < |sections|
      invariant 0 <= si <= |sections|
      invariant globalSlotIndex == 1 + TotalSlots(sections[..si])
      invariant cells == Layout(sections[..si], caught, names)
    {
      var placedCells;
      assert sections[..si + 1][..si] == sections[..si];
      placedCells, globalSlotIndex := PlaceSection(si, sections[si].entries, globalSlotIndex, caught, names);
      cells := cells + placedCells;
      si := si + 1;
    }
    assert sections[..si] == sections;
  }

  /** The global slot numbers of the interactive cells, in order. */
  function SlotNumbers(cells: seq<Cell>): seq<int> {
    if cells == [] then []
    else
      var k := |cells| - 1;
      SlotNumbers(cells[..k]) + (if cells[k].Slot? then [cells[k].slot] else [])
  }

  lemma {:induction false} SlotNumbersAppend(a: seq<Cell>, b: seq<Cell>)
    ensures SlotNumbers(a + b) == SlotNumbers(a) + SlotNumbers(b)
    decreases |b|
  {
    if b == [] {
      assert a + b == a;
    } else {
      var k := |b| - 1;
      assert (a + b)[..|a| + k] == a + b[..k];
      SlotNumbersAppend(a, b[..k]);
    }
  }

  /** A run of interactive cells contributes their slots, in order. */
  lemma {:induction false} SlotNumbersOfAllSlots(cs: seq<Cell>)
    requires forall i :: 0 <= i < |cs| ==> cs[i].Slot?
    ensures var sn := SlotNumbers(cs);
      |sn| == |cs| && forall i :: 0 <= i < |sn| ==> sn[i] == cs[i].slot
  {
    if cs != [] {
      SlotNumbersOfAllSlots(cs[..|cs| - 1]);
    }
  }

  lemma SlotNumbersOfSlots(si: nat, entries: seq<Entry>, start: int,
                           caught: CaughtMap, names: map<int, string>)
    ensures var sn := SlotNumbers(SlotCells(si, entries, start, caught, names));
      |sn| == |entries| && forall i :: 0 <= i < |sn| ==> sn[i] == start + i
  {
    SlotNumbersOfAllSlots(SlotCells(si, entries, start, caught, names));
  }

  lemma {:induction false} SlotNumbersOfPlaceholders(si: nat, box: nat, k: nat)
    ensures SlotNumbers(Placeholders(si, box, k)) == []
  {
    if k > 0 {
      assert Placeholders(si, box, k)[..k - 1] == Placeholders(si, box, k - 1);
      SlotNumbersOfPlaceholders(si, box, k - 1);
    }
  }

  /** Global slot numbers run 1, 2, ..., TotalSlots(sections) across all
    sections without gaps or repeats; placeholders take no number. */
  lemma {:induction false} LayoutSlotNumbers(sections: seq<Section>, caught: CaughtMap,
                                              names: map<int, string>)
    ensures var sn := SlotNumbers(Layout(sections, caught, names));
      |sn| == TotalSlots(sections) && forall i :: 0 <= i < |sn| ==> sn[i] == i + 1
    decreases |sections|
  {
    if sections != [] {
      var k := |sections| - 1;
      var es := sections[k].entries;
      var t := TotalSlots(sections[..k]);
      var start := 1 + t;
      var before := Layout(sections[..k], caught, names);
      var slots := SlotCells(k, es, start, caught, names);
      var pads := Placeholders(k, |es| / BoxCapacity, PlaceholderCount(|es|));
      assert Layout(sections, caught, names) == before + (slots + pads);
      LayoutSlotNumbers(sections[..k], caught, names);
      SlotNumbersAppend(before, slots + pads);
      SlotNumbersAppend(slots, pads);
      SlotNumbersOfSlots(k, es, start, caught, names);
      SlotNumbersOfPlaceholders(k, |es| / BoxCapacity, PlaceholderCount(|es|));
      assert SlotNumbers(Layout(sections, caught, names))
        == SlotNumbers(before) + SlotNumbers(slots);
    }
  }

  /** Every section is padded to whole boxes, so the whole layout fills
    whole boxes and holds at least one cell per slot. */
  lemma {:induction false} LayoutWholeBoxes(sections: seq<Section>, caught: CaughtMap,
                                             names: map<int, string>)
    ensures |Layout(sections, caught, names)| % BoxCapacity == 0
    ensures |Layout(sections, caught, names)| >= TotalSlots(sections)
    decreases |sections|
  {
    if sections != [] {
      var k := |sections| - 1;
      var n := |sections[k].entries|;
      LayoutWholeBoxes(sections[..k], caught, names);
      var a := |Layout(sections[..k], caught, names)|;
      assert |Layout(sections, caught, names)| == a + (n + PlaceholderCount(n));
      WholeBoxes(a, n + PlaceholderCount(n));
    }
  }

  lemma WholeBoxes(a: nat, b: nat)
    requires a % BoxCapacity == 0 && b % BoxCapacity == 0
    ensures (a + b) % BoxCapacity == 0
  {
  }

  /** Within one section: the `i`-th cell placed goes to box `i / 30`, so
    every box receives exactly 30 cells; the first `n` are the slot cells
    (display index `i + 1`, padded to three digits, restarting at "001" in
    every section), the rest are placeholders. */
  lemma SectionFill(si: nat, entries: seq<Entry>, start: int, caught: CaughtMap,
                    names: map<int, string>)
    ensures var cs := SectionCells(si, entries, start, caught, names);
      && |cs| == BoxCapacity * BoxCount(|entries|)
      && (forall i :: 0 <= i < |cs| ==> cs[i].section == si && cs[i].box == i / BoxCapacity)
      && (forall i :: 0 <= i < |cs| ==> (cs[i].Slot? <==> i < |entries|))
      && (forall i :: 0 <= i < |entries| ==>
            && cs[i].slot == start + i
            && cs[i].number == i + 1
            && cs[i].speciesId == entries[i].speciesId
            && cs[i].formId == entries[i].formId
            && cs[i].caught == Truthy(caught, start + i))
  {
    var n := |entries|;
    var cs := SectionCells(si, entries, start, caught, names);
    assert |cs| == BoxCapacity * BoxCount(n) by {
      if n % BoxCapacity == 0 {
        assert BoxCount(n) == n / BoxCapacity;
      } else {
        assert BoxCount(n) == n / BoxCapacity + 1;
      }
    }
    forall i | n <= i < |cs|
      ensures cs[i].box == i / BoxCapacity
    {
      assert cs[i] == Placeholder(si, n / BoxCapacity);
    }
  }

  /** The slot cells agree with the rendered boxes: the `i`-th slot cell of a
    section goes to a box the renderer made, and its global slot lies in the
    range of that box's toggle button. */
  lemma SlotsInRenderedBoxes(si: nat, entries: seq<Entry>, start: int, caught: CaughtMap,
                             names: map<int, string>, i: nat)
    requires i < |entries|
    ensures var c := SlotCells(si, entries, start, caught, names)[i];
      && c.box < BoxCount(|entries|)
      && Boxes(|entries|, start)[c.box].globalStart <= c.slot <= Boxes(|entries|, start)[c.box].globalEnd
  {
    var b := i / BoxCapacity;
    assert b * BoxCapacity <= i < (b + 1) * BoxCapacity;
  }
}
