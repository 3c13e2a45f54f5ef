// applySearchFilter: which of the dex cells a query highlights and which it
// dims. The query is trimmed and lowercased; a query of the form `#?\d+`
// matches by number, any other non-empty query by name substring.

module Search {
  import opened Decimal
  import opened BitPack
  import opened Sections
  import opened BoxLayout

  /** ECMAScript WhiteSpace and LineTerminator code points (what
    `String.prototype.trim` removes). */
  predicate IsSpace(c: char) {
    c == '\t' || c == '\n' || c == '\U{000B}' || c == '\U{000C}' || c == '\r' || c == ' '
    || c == '\U{00A0}' || c == '\U{1680}' || ('\U{2000}' <= c <= '\U{200A}')
    || c == '\U{2028}' || c == '\U{2029}' || c == '\U{202F}' || c == '\U{205F}'
    || c == '\U{3000}' || c == '\U{FEFF}'
  }

  /** Drops leading white space. */
  function TrimStart(s: string): (r: string)
    ensures |r| <= |s|
    ensures r != [] ==> !IsSpace(r[0])
  {
    if s != [] && IsSpace(s[0]) then TrimStart(s[1..]) else s
  }

  /** What TrimStart drops is white space. */
  lemma {:induction false} TrimStartDropsSpaces(s: string)
    ensures forall i :: 0 <= i < |s| - |TrimStart(s)| ==> IsSpace(s[i])
    decreases |s|
  {
    if s != [] && IsSpace(s[0]) {
      var t := s[1..];
      TrimStartDropsSpaces(t);
      forall i | 1 <= i < |s| - |TrimStart(t)|
        ensures IsSpace(s[i])
      {
        assert s[i] == t[i - 1];
      }
    }
  }

  /** What TrimStart keeps is the end of the string, unchanged. */
  lemma {:induction false} TrimStartKeepsRest(s: string)
    ensures forall i :: 0 <= i < |TrimStart(s)| ==> TrimStart(s)[i] == s[|s| - |TrimStart(s)| + i]
    decreases |s|
  {
    if s != [] && IsSpace(s[0]) {
      var t := s[1..];
      TrimStartKeepsRest(t);
      var r := TrimStart(t);
      forall i | 0 <= i < |r|
        ensures r[i] == s[|s| - |r| + i]
      {
        assert s[|s| - |r| + i] == t[|t| - |r| + i];
      }
    }
  }

  /** Drops trailing white space. */
  function TrimEnd(s: string): (r: string)
    ensures |r| <= |s| && r == s[..|r|]
    ensures forall i :: |r| <= i < |s| ==> IsSpace(s[i])
    ensures r != [] ==> !IsSpace(r[|r| - 1])
  {
    if s != [] && IsSpace(s[|s| - 1]) then TrimEnd(s[..|s| - 1]) else s
  }

  /** `s.trim()`. */
  function Trim(s: string): string {
    TrimEnd(TrimStart(s))
  }

  /** `toLowerCase` on one character; only A-Z is folded. */
  function LowerChar(c: char): (r: char)
    ensures IsSpace(r) <==> IsSpace(c)
    ensures !('A' <= r <= 'Z')
    ensures !('A' <= c <= 'Z') ==> r == c
    ensures 'A' <= c <= 'Z' ==> r as int == c as int + 32
  {
    if 'A' <= c <= 'Z' then (c as int + 32) as char else c
  }

  function Lower(s: string): (r: string)
    ensures |r| == |s|
    ensures forall i :: 0 <= i < |s| ==> r[i] == LowerChar(s[i])
  {
    seq(|s|, i requires 0 <= i < |s| => LowerChar(s[i]))
  }

  /** `query.trim().toLowerCase()`. */
  function Normalise(query: string): string {
    Lower(Trim(query))
  }

  /** `/^#?\d+$/`. */
  predicate IsNumberQuery(t: string) {
    (|t| >= 1 && AllDigits(t)) || (|t| >= 2 && t[0] == '#' && AllDigits(t[1..]))
  }

  /** `Number(t.replace('#', ''))` for a number query; the one `#` a number
    query can hold is its first character. */
  function QueryNumber(t: string): nat
    requires IsNumberQuery(t)
  {
    if t[0] == '#' then DigitsValue(t[1..]) else DigitsValue(t)
  }

  /** What a dex cell exposes to the search: its slot (`data-regional`), its
    species id (`data-national`), its lowercased name (`data-name`) and the
    text of its label. */
  datatype Candidate = Candidate(regional: int, national: int, name: string, labelText: string)

  /** The search view of a slot cell built by populateDexSlots. */
  function CandidateOf(c: Cell): (r: Candidate)
    requires c.Slot?
    ensures r.regional == c.slot && r.national == c.speciesId && r.labelText == c.name
  {
    Candidate(c.slot, c.speciesId, Lower(c.name), c.name)
  }

  /** The cells the search looks at: the slot cells, not the placeholders. */
  function Candidates(cells: seq<Cell>): (r: seq<Candidate>)
    ensures |r| <= |cells|
  {
    if cells == [] then []
    else
      var rest := Candidates(cells[..|cells| - 1]);
      var last := cells[|cells| - 1];
      if last.Slot? then rest + [CandidateOf(last)] else rest
  }

  /** `s.includes(t)`. */
  predicate Contains(s: string, t: string)
    decreases |s|
  {
    t <= s || (s != [] && Contains(s[1..], t))
  }

  /** The number test: slot or species id equal to the number (a zero never
    matches, since it becomes NaN), or a label `#n` or `n`. */
  predicate NumberMatch(n: nat, c: Candidate) {
    (c.regional != 0 && c.regional == n) || (c.national != 0 && c.national == n)
    || Trim(c.labelText) == "#" + NatToString(n) || Trim(c.labelText) == NatToString(n)
  }

  /** The name test: `data-name` (or the label when it is empty),
    lowercased, contains the query. */
  predicate NameMatch(t: string, c: Candidate) {
    Contains(Lower(if c.name != "" then c.name else c.labelText), t)
  }

  /** Whether a cell is among the matches of the normalised query `t`. */
  predicate Matches(t: string, c: Candidate) {
    if IsNumberQuery(t) then NumberMatch(QueryNumber(t), c) else NameMatch(t, c)
  }

  predicate AnyMatch(t: string, cells: seq<Candidate>) {
    exists j :: 0 <= j < |cells| && Matches(t, cells[j])
  }

  /** The classes a cell ends with. */
  datatype Mark = Plain | Highlight | Dimmed

  /** applySearchFilter: every cell is cleared; with a non-empty query and at
    least one match, matches are highlighted and all others dimmed. */
  function Marks(query: string, cells: seq<Candidate>): (r: seq<Mark>)
    ensures |r| == |cells|
  {
    var t := Normalise(query);
    var active := t != "" && AnyMatch(t, cells);
    seq(|cells|, i requires 0 <= i < |cells| => MarkOf(active, Matches(t, cells[i])))
  }

  function MarkOf(active: bool, matched: bool): Mark {
    if !active then Plain else if matched then Highlight else Dimmed
  }

  /** What the marks mean: a cell is highlighted iff the query is non-empty
    and it matches; it is dimmed iff the query is non-empty, it does not
    match and some other cell does; an empty query or one without matches
    leaves every cell plain. */
  lemma MarksMeaning(query: string, cells: seq<Candidate>)
    ensures var t := Normalise(query); var r := Marks(query, cells);
      && (forall i :: 0 <= i < |cells| ==>
            (r[i] == Highlight <==> t != "" && Matches(t, cells[i])))
      && (forall i :: 0 <= i < |cells| ==>
            (r[i] == Dimmed <==> t != "" && !Matches(t, cells[i]) && AnyMatch(t, cells)))
      && (t == "" || !AnyMatch(t, cells) ==> forall i :: 0 <= i < |cells| ==> r[i] == Plain)
  {
    var t := Normalise(query);
    var r := Marks(query, cells);
    forall i | 0 <= i < |cells|
      ensures r[i] == Highlight <==> t != "" && Matches(t, cells[i])
    {
      if t != "" && Matches(t, cells[i]) {
        assert AnyMatch(t, cells);
      }
    }
  }

  lemma {:induction false} TrimStartIdempotent(s: string)
    requires s == [] || !IsSpace(s[0])
    ensures TrimStart(s) == s
  {
  }

  /** Trimming twice is trimming once. */
  lemma TrimIdempotent(s: string)
    ensures Trim(Trim(s)) == Trim(s)
  {
    var t := Trim(s);
    TrimStartIdempotent(t);
  }

  /** Lowercasing twice is lowercasing once. */
  lemma LowerIdempotent(s: string)
    ensures Lower(Lower(s)) == Lower(s)
  {
    var l := Lower(s);
    assert forall i :: 0 <= i < |l| ==> Lower(l)[i] == l[i];
  }

  /** A string with no white space at either end is its own trim. */
  lemma TrimmedAlready(s: string)
    requires s == [] || (!IsSpace(s[0]) && !IsSpace(s[|s| - 1]))
    ensures Trim(s) == s
  {
    TrimStartIdempotent(s);
  }

  /** Normalising a query twice is normalising it once, so a query and its
    normal form mark the cells alike. */
  lemma NormaliseIdempotent(query: string)
    ensures Normalise(Normalise(query)) == Normalise(query)
    ensures forall cells :: Marks(Normalise(query), cells) == Marks(query, cells)
  {
    var n := Lower(Trim(query));
    assert n == [] || (!IsSpace(n[0]) && !IsSpace(n[|n| - 1]));
    TrimmedAlready(n);
    LowerIdempotent(Trim(query));
  }

  /** A string of digits is its own normal form. */
  lemma DigitsNormal(s: string)
    requires |s| >= 1 && AllDigits(s)
    ensures Normalise(s) == s
  {
    assert !IsSpace(s[0]) && !IsSpace(s[|s| - 1]);
    TrimmedAlready(s);
    assert forall i :: 0 <= i < |s| ==> Lower(s)[i] == s[i];
  }

  /** A leading zero does not change a number. */
  lemma {:induction false} LeadingZeroIgnored(s: string)
    requires AllDigits(s)
    ensures AllDigits("0" + s) && DigitsValue("0" + s) == DigitsValue(s)
  {
    var z := "0" + s;
    if s != [] {
      assert z[..|z| - 1] == "0" + s[..|s| - 1];
      LeadingZeroIgnored(s[..|s| - 1]);
    }
  }

  /** `n`, `#n` and zero-padded `#0n` all query the number n, and find every
    cell whose slot or species id is n. */
  lemma NumberQueryFinds(n: nat, c: Candidate)
    ensures IsNumberQuery(NatToString(n)) && QueryNumber(NatToString(n)) == n
    ensures IsNumberQuery("#" + NatToString(n)) && QueryNumber("#" + NatToString(n)) == n
    ensures IsNumberQuery("#0" + NatToString(n)) && QueryNumber("#0" + NatToString(n)) == n
    ensures (c.regional == n || c.national == n) && n != 0 ==>
      Matches(NatToString(n), c) && Matches("#" + NatToString(n), c)
  {
    var s := NatToString(n);
    DigitsValueOfString(n);
    assert ("#" + s)[1..] == s;
    assert ("#0" + s)[1..] == "0" + s;
    LeadingZeroIgnored(s);
  }

  /** A query of zero never matches by slot or species id, only a label
    `#0` or `0` (`Number(...) || NaN` turns a zero into NaN). */
  lemma ZeroQuery(t: string, c: Candidate)
    requires IsNumberQuery(t) && QueryNumber(t) == 0
    ensures Matches(t, c) <==> Trim(c.labelText) == "#0" || Trim(c.labelText) == "0"
  {
    assert NatToString(0) == "0";
    assert "#" + NatToString(0) == "#0";
  }

  /** Every piece of a string is contained in it. */
  lemma {:induction false} ContainsSlice(s: string, i: nat, j: nat)
    requires i <= j <= |s|
    ensures Contains(s, s[i..j])
    decreases i
  {
    if i == 0 {
      assert s[..j] <= s;
    } else {
      ContainsSlice(s[1..], i - 1, j - 1);
      assert s[1..][i - 1..j - 1] == s[i..j];
    }
  }

  /** Any piece of a cell's lowercased name that is not a number query finds
    that cell. */
  lemma NameQueryFinds(c: Candidate, i: nat, j: nat)
    requires c.name != "" && i < j <= |c.name|
    requires !IsNumberQuery(Lower(c.name)[i..j])
    ensures Matches(Lower(c.name)[i..j], c)
  {
    ContainsSlice(Lower(c.name), i, j);
  }

  /** The search sees the slot cells in layout order: the `i`-th candidate
    carries the `i`-th global slot number. */
  lemma {:induction false} CandidatesFollowSlots(cells: seq<Cell>)
    ensures |Candidates(cells)| == |SlotNumbers(cells)|
    ensures forall i :: 0 <= i < |Candidates(cells)| ==> Candidates(cells)[i].regional == SlotNumbers(cells)[i]
  {
    if cells != [] {
      CandidatesFollowSlots(cells[..|cells| - 1]);
    }
  }

  /** Searching for a global slot number `k` of the page highlights the
    `k`-th slot cell. */
  lemma SlotQueryHighlights(sections: seq<Section>, caught: CaughtMap, names: map<int, string>, k: nat)
    requires 1 <= k <= TotalSlots(sections)
    ensures var cs := Candidates(Layout(sections, caught, names));
      k - 1 < |cs| && cs[k - 1].regional == k && Marks(NatToString(k), cs)[k - 1] == Highlight
  {
    var cells := Layout(sections, caught, names);
    var cs := Candidates(cells);
    LayoutSlotNumbers(sections, caught, names);
    CandidatesFollowSlots(cells);
    NumberQueryFinds(k, cs[k - 1]);
    var q := NatToString(k);
    DigitsNormal(q);
    MarksMeaning(q, cs);
  }
}
