/**
 * `normaliseSpeciesName`: the fallback display name built from a PokeAPI
 * slug, `name.replace(/-/g, ' ').replace(/\b\w/g, c => c.toUpperCase())`.
 * `\w` is the ASCII word class `[A-Za-z0-9_]` (the pattern has no `u` flag),
 * and `\b\w` matches a word character whose left neighbour is not one.
 */
module SpeciesName {
  predicate IsWordChar(c: char) {
    'A' <= c <= 'Z' || 'a' <= c <= 'z' || '0' <= c <= '9' || c == '_'
  }

  /** `toUpperCase` on a single word character. */
  function Upper(c: char): (u: char)
    ensures IsWordChar(u) == IsWordChar(c)
    ensures !('a' <= u <= 'z')
    ensures 'a' <= c <= 'z' ==> u as int == c as int - 32
    ensures !('a' <= c <= 'z') ==> u == c
  {
    if 'a' <= c <= 'z' then (c as int - 32) as char else c
  }

  /** `.replace(/-/g, ' ')`. */
  function Dashless(s: string): (t: string)
    ensures |t| == |s| && forall i :: 0 <= i < |t| ==> t[i] != '-'
  {
    seq(|s|, i requires 0 <= i < |s| => if s[i] == '-' then ' ' else s[i])
  }

  /** A position `\b\w` matches at. */
  predicate WordStart(t: string, i: nat)
    requires i < |t|
  {
    IsWordChar(t[i]) && (i == 0 || !IsWordChar(t[i - 1]))
  }

  /** The length is kept, no `-` remains, every character keeps whether it is a
    word character (so word boundaries do not move), only the first character
    of a word can change, and it becomes its upper-case letter. */
  function Normalise(name: string): (r: string)
    ensures |r| == |name|
    ensures forall i :: 0 <= i < |r| ==> r[i] != '-'
    ensures forall i :: 0 <= i < |r| ==> IsWordChar(r[i]) == IsWordChar(Dashless(name)[i])
    ensures forall i :: 0 <= i < |r| && !WordStart(Dashless(name), i) ==> r[i] == Dashless(name)[i]
    ensures forall i :: 0 <= i < |r| && WordStart(Dashless(name), i) ==> !('a' <= r[i] <= 'z')
    ensures forall i :: 0 <= i < |r| && WordStart(Dashless(name), i) ==> r[i] == Upper(Dashless(name)[i])
  {
    var t := Dashless(name);
    seq(|t|, i requires 0 <= i < |t| => if WordStart(t, i) then Upper(t[i]) else t[i])
  }

  /** Normalising an already normalised name changes nothing. */
  lemma NormaliseIdempotent(name: string)
    ensures Normalise(Normalise(name)) == Normalise(name)
  {
    var r := Normalise(name);
    var t := Dashless(name);
    assert Dashless(r) == r;
    forall i | 0 <= i < |r|
      ensures WordStart(r, i) == WordStart(t, i)
    {
    }
    forall i | 0 <= i < |r|
      ensures Normalise(r)[i] == r[i]
    {
      if WordStart(r, i) {
        assert r[i] == Upper(t[i]);
      }
    }
  }

  lemma NormaliseExample()
    ensures Normalise("mr-mime") == "Mr Mime"
    ensures Normalise("ho-oh") == "Ho Oh"
    ensures Normalise("porygon-z") == "Porygon Z"
  {
    assert Dashless("mr-mime") == "mr mime";
    assert Dashless("ho-oh") == "ho oh";
    assert Dashless("porygon-z") == "porygon z";
  }
}
