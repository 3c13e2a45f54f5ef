/**
 * Base64 as the browser's `btoa`/`atob` pair applies it to the binary strings
 * built from byte arrays (RFC 4648 section 4), the URL-safe alphabet
 * substitution of RFC 4648 section 5, and removal and restoration of the `=`
 * padding (RFC 4648 section 3.2).
 *
 * A "binary string" in the source holds one character per byte, so the model
 * works on `seq<bv8>` directly on the byte side.
 */
module Base64 {
  import opened Wrappers

  /** A character code of a binary string, as produced by `String.fromCharCode(byte)`. */
  type Byte = x: int | 0 <= x < 256

  /** One Base64 digit value. */
  type Sextet = x: int | 0 <= x < 64

  /** The RFC 4648 section 4 alphabet, digit value to character. */
  function SextetChar(v: Sextet): (c: char)
    ensures IsStandardChar(c)
  {
    if v < 26 then ('A' as int + v) as char
    else if v < 52 then ('a' as int + (v - 26)) as char
    else if v < 62 then ('0' as int + (v - 52)) as char
    else if v == 62 then '+'
    else '/'
  }

  /** The inverse lookup; `None` for characters outside the alphabet. */
  function CharSextet(c: char): (r: Option<Sextet>)
  {
    if 'A' <= c <= 'Z' then Some(c as int - 'A' as int)
    else if 'a' <= c <= 'z' then Some(c as int - 'a' as int + 26)
    else if '0' <= c <= '9' then Some(c as int - '0' as int + 52)
    else if c == '+' then Some(62)
    else if c == '/' then Some(63)
    else None
  }

  predicate IsStandardChar(c: char) {
    'A' <= c <= 'Z' || 'a' <= c <= 'z' || '0' <= c <= '9' || c == '+' || c == '/'
  }

  /** The URL-safe alphabet of RFC 4648 section 5. */
  predicate IsUrlSafeChar(c: char) {
    'A' <= c <= 'Z' || 'a' <= c <= 'z' || '0' <= c <= '9' || c == '-' || c == '_'
  }

  lemma SextetCharRoundTrip(v: Sextet)
    ensures CharSextet(SextetChar(v)) == Some(v)
  {
    if v < 26 {
    } else if v < 52 {
    } else if v < 62 {
    }
  }

  lemma CharSextetRoundTrip(c: char)
    requires CharSextet(c).Some?
    ensures SextetChar(CharSextet(c).value) == c
  {
  }

  function Repeat(c: char, k: nat): (r: string)
    ensures |r| == k && forall i :: 0 <= i < k ==> r[i] == c
  {
    if k == 0 then "" else [c] + Repeat(c, k - 1)
  }

  /** Base64 of `b` before any `=` padding is appended. */
  function Unpadded(b: seq<Byte>): (r: string)
    ensures |r| == 4 * (|b| / 3) + (if |b| % 3 == 0 then 0 else |b| % 3 + 1)
    ensures forall i :: 0 <= i < |r| ==> IsStandardChar(r[i])
    decreases |b|
  {
    if |b| == 0 then ""
    else if |b| == 1 then
      [SextetChar(b[0] / 4), SextetChar(b[0] % 4 * 16)]
    else if |b| == 2 then
      [SextetChar(b[0] / 4), SextetChar(b[0] % 4 * 16 + b[1] / 16), SextetChar(b[1] % 16 * 4)]
    else
      [SextetChar(b[0] / 4), SextetChar(b[0] % 4 * 16 + b[1] / 16),
       SextetChar(b[1] % 16 * 4 + b[2] / 64), SextetChar(b[2] % 64)]
      + Unpadded(b[3..])
  }

  /** Number of `=` characters RFC 4648 appends for an input of `len` bytes. */
  function PadCount(len: nat): (k: nat)
    ensures k <= 2
  {
    (3 - len % 3) % 3
  }

  /** `btoa` on a binary string: Base64 with padding (RFC 4648 section 4). */
  function Btoa(b: seq<Byte>): (r: string)
    ensures |r| % 4 == 0
    ensures |r| == 4 * ((|b| + 2) / 3)
  {
    PaddedLength(|b|);
    Unpadded(b) + Repeat('=', PadCount(|b|))
  }

  /** The unpadded length plus the padding is four characters per started
    three-byte group. */
  lemma PaddedLength(n: nat)
    ensures 4 * (n / 3) + (if n % 3 == 0 then 0 else n % 3 + 1) + PadCount(n) == 4 * ((n + 2) / 3)
    ensures (4 * ((n + 2) / 3)) % 4 == 0
  {
    var q, r := n / 3, n % 3;
    assert n == 3 * q + r;
    assert (n + 2) / 3 == if r == 0 then q else q + 1;
  }

  predicate IsAsciiWhitespace(c: char) {
    c == ' ' || c == '\t' || c == '\n' || c == '\r' || c as int == 12
  }

  function RemoveWhitespace(s: string): (r: string)
    ensures |r| <= |s|
    ensures forall i :: 0 <= i < |r| ==> !IsAsciiWhitespace(r[i])
  {
    if s == [] then []
    else if IsAsciiWhitespace(s[0]) then RemoveWhitespace(s[1..])
    else [s[0]] + RemoveWhitespace(s[1..])
  }

  /** Decodes unpadded Base64 characters, four at a time; the trailing two or
    three characters give one or two bytes and their spare low bits are dropped. */
  function DecodeChars(u: string): (r: Option<seq<Byte>>)
    ensures r.Some? ==> |u| % 4 != 1
    ensures r.Some? ==> |r.value| == 3 * (|u| / 4) + (if |u| % 4 == 0 then 0 else |u| % 4 - 1)
    decreases |u|
  {
    if |u| == 0 then Some([])
    else if |u| == 1 then None
    else
      var c0 := CharSextet(u[0]);
      var c1 := CharSextet(u[1]);
      if c0.None? || c1.None? then None
      else
        var b0 := c0.value * 4 + c1.value / 16;
        if |u| == 2 then Some([b0])
        else
          var c2 := CharSextet(u[2]);
          if c2.None? then None
          else
            var b1 := c1.value % 16 * 16 + c2.value / 4;
            if |u| == 3 then Some([b0, b1])
            else
              var c3 := CharSextet(u[3]);
              if c3.None? then None
              else
                var b2 := c2.value % 4 * 64 + c3.value;
                match DecodeChars(u[4..])
                case None => None
                case Some(rest) => Some([b0, b1, b2] + rest)
  }

  /** `atob`: the forgiving Base64 decode of the WHATWG HTML standard. Whitespace
    is dropped, one or two trailing `=` are dropped from a length that is a
    multiple of four, a remainder of one character or any character outside
    the alphabet is a failure (`atob` throws). */
  function Atob(s: string): (r: Option<seq<Byte>>)
    ensures r.Some? ==> 4 * |r.value| <= 3 * |s|
  {
    var u := DropPadding(RemoveWhitespace(s));
    if |u| % 4 == 1 then None else DecodeChars(u)
  }

  /** Step two of the forgiving decode: one or two `=` are dropped from an
    input whose length is a multiple of four. */
  function DropPadding(t: string): (u: string)
    ensures |t| - 2 <= |u| <= |t| && u == t[..|u|]
  {
    if |t| % 4 == 0 && |t| >= 2 && t[|t| - 1] == '=' && t[|t| - 2] == '=' then t[..|t| - 2]
    else if |t| % 4 == 0 && |t| >= 1 && t[|t| - 1] == '=' then t[..|t| - 1]
    else t
  }

  /** The bit arithmetic of one three-byte block survives a round trip through four digits. */
  lemma BlockArithmetic(b0: Byte, b1: Byte, b2: Byte)
    ensures b0 / 4 * 4 + (b0 % 4 * 16 + b1 / 16) / 16 == b0
    ensures (b0 % 4 * 16 + b1 / 16) % 16 * 16 + (b1 % 16 * 4 + b2 / 64) / 4 == b1
    ensures (b1 % 16 * 4 + b2 / 64) % 4 * 64 + b2 % 64 == b2
    ensures (b0 % 4 * 16 + b1 / 16) % 16 * 16 + b1 % 16 * 4 / 4 == b1
    ensures b0 / 4 * 4 + b0 % 4 * 16 / 16 == b0
  {
    assert (b0 % 4 * 16 + b1 / 16) / 16 == b0 % 4;
    assert (b0 % 4 * 16 + b1 / 16) % 16 == b1 / 16;
    assert (b1 % 16 * 4 + b2 / 64) / 4 == b1 % 16;
    assert (b1 % 16 * 4 + b2 / 64) % 4 == b2 / 64;
  }

  lemma DecodeOneByte(b0: Byte)
    ensures DecodeChars(Unpadded([b0])) == Some([b0])
  {
    var x0, x1 := b0 / 4, b0 % 4 * 16;
    SextetCharRoundTrip(x0);
    SextetCharRoundTrip(x1);
    BlockArithmetic(b0, 0, 0);
    assert Unpadded([b0]) == [SextetChar(x0), SextetChar(x1)];
  }

  lemma DecodeTwoBytes(b0: Byte, b1: Byte)
    ensures DecodeChars(Unpadded([b0, b1])) == Some([b0, b1])
  {
    var x0, x1, x2 := b0 / 4, b0 % 4 * 16 + b1 / 16, b1 % 16 * 4;
    SextetCharRoundTrip(x0);
    SextetCharRoundTrip(x1);
    SextetCharRoundTrip(x2);
    BlockArithmetic(b0, b1, 0);
    var u := [SextetChar(x0), SextetChar(x1), SextetChar(x2)];
    assert Unpadded([b0, b1]) == u;
    assert CharSextet(u[0]) == Some(x0) && CharSextet(u[1]) == Some(x1) && CharSextet(u[2]) == Some(x2);
  }

  lemma DecodeFour(u: string, c0: Sextet, c1: Sextet, c2: Sextet, c3: Sextet)
    requires |u| >= 4
    requires CharSextet(u[0]) == Some(c0) && CharSextet(u[1]) == Some(c1)
    requires CharSextet(u[2]) == Some(c2) && CharSextet(u[3]) == Some(c3)
    ensures DecodeChars(u) ==
      match DecodeChars(u[4..])
      case None => None
      case Some(rest) => Some([c0 * 4 + c1 / 16, c1 % 16 * 16 + c2 / 4, c2 % 4 * 64 + c3] + rest)
  {
  }

  lemma DecodeFourBytes(u: string, b: seq<Byte>)
    requires |u| >= 4 && |b| >= 3
    requires CharSextet(u[0]) == Some(b[0] / 4)
    requires CharSextet(u[1]) == Some(b[0] % 4 * 16 + b[1] / 16)
    requires CharSextet(u[2]) == Some(b[1] % 16 * 4 + b[2] / 64)
    requires CharSextet(u[3]) == Some(b[2] % 64)
    requires DecodeChars(u[4..]) == Some(b[3..])
    ensures DecodeChars(u) == Some(b)
  {
    BlockArithmetic(b[0], b[1], b[2]);
    DecodeFour(u, b[0] / 4, b[0] % 4 * 16 + b[1] / 16, b[1] % 16 * 4 + b[2] / 64, b[2] % 64);
    assert [b[0], b[1], b[2]] + b[3..] == b;
  }

  lemma DecodeBlock(b: seq<Byte>)
    requires |b| >= 3
    requires DecodeChars(Unpadded(b[3..])) == Some(b[3..])
    ensures DecodeChars(Unpadded(b)) == Some(b)
  {
    UnpaddedBlock(b);
    DecodeEncodedBlock(b, Unpadded(b[3..]));
  }

  /** The four characters of a three-byte block decode back to it. */
  lemma DecodeEncodedBlock(b: seq<Byte>, rest: string)
    requires |b| >= 3
    requires DecodeChars(rest) == Some(b[3..])
    ensures DecodeChars([SextetChar(b[0] / 4), SextetChar(b[0] % 4 * 16 + b[1] / 16),
                         SextetChar(b[1] % 16 * 4 + b[2] / 64), SextetChar(b[2] % 64)] + rest) == Some(b)
  {
    var x0, x1, x2, x3 := b[0] / 4, b[0] % 4 * 16 + b[1] / 16, b[1] % 16 * 4 + b[2] / 64, b[2] % 64;
    SextetCharRoundTrip(x0);
    SextetCharRoundTrip(x1);
    SextetCharRoundTrip(x2);
    SextetCharRoundTrip(x3);
    var u := [SextetChar(x0), SextetChar(x1), SextetChar(x2), SextetChar(x3)] + rest;
    assert u[4..] == rest;
    DecodeFourBytes(u, b);
  }

  /** A block of three bytes becomes four characters ahead of the rest. */
  lemma UnpaddedBlock(b: seq<Byte>)
    requires |b| >= 3
    ensures Unpadded(b) == [SextetChar(b[0] / 4), SextetChar(b[0] % 4 * 16 + b[1] / 16),
                            SextetChar(b[1] % 16 * 4 + b[2] / 64), SextetChar(b[2] % 64)]
                           + Unpadded(b[3..])
  {
  }

  lemma {:induction false} DecodeUnpadded(b: seq<Byte>)
    ensures DecodeChars(Unpadded(b)) == Some(b)
    decreases |b|
  {
    if |b| == 1 {
      assert b == [b[0]];
      DecodeOneByte(b[0]);
    } else if |b| == 2 {
      assert b == [b[0], b[1]];
      DecodeTwoBytes(b[0], b[1]);
    } else if |b| >= 3 {
      DecodeUnpadded(b[3..]);
      DecodeBlock(b);
    }
  }

  lemma NoWhitespaceUnchanged(s: string)
    requires forall i :: 0 <= i < |s| ==> !IsAsciiWhitespace(s[i])
    ensures RemoveWhitespace(s) == s
  {
    if s != [] {
      NoWhitespaceUnchanged(s[1..]);
    }
  }

  lemma AtobPadded(u: string, k: nat)
    requires forall i :: 0 <= i < |u| ==> IsStandardChar(u[i])
    requires k <= 2 && (|u| + k) % 4 == 0 && |u| % 4 != 1
    ensures Atob(u + Repeat('=', k)) == DecodeChars(u)
  {
    var t := u + Repeat('=', k);
    assert forall i :: 0 <= i < |t| ==> !IsAsciiWhitespace(t[i]);
    NoWhitespaceUnchanged(t);
    DropPaddingOf(u, k);
  }

  lemma DropPaddingOf(u: string, k: nat)
    requires forall i :: 0 <= i < |u| ==> IsStandardChar(u[i])
    requires k <= 2 && (|u| + k) % 4 == 0
    ensures DropPadding(u + Repeat('=', k)) == u
  {
    var t := u + Repeat('=', k);
    if k == 2 {
      assert t[..|t| - 2] == u;
    } else if k == 1 {
      assert t[|t| - 2] == u[|u| - 1];
      assert t[..|t| - 1] == u;
    } else {
      assert t == u;
    }
  }

  /** `atob(btoa(b))` gives back `b`. */
  lemma AtobBtoa(b: seq<Byte>)
    ensures Atob(Btoa(b)) == Some(b)
  {
    var u, k := Unpadded(b), PadCount(|b|);
    PaddedLength(|b|);
    PadCountRestored(|b|, |u|);
    assert Btoa(b) == u + Repeat('=', k);
    AtobPadded(u, k);
    DecodeUnpadded(b);
  }

  /** The RFC 4648 section 5 substitution applied by `.replace(/\+/g, '-').replace(/\//g, '_')`. */
  function ToUrlSafe(s: string): (r: string)
    ensures |r| == |s|
    ensures forall i :: 0 <= i < |r| ==> r[i] != '+' && r[i] != '/'
    ensures forall i :: 0 <= i < |s| && s[i] != '+' && s[i] != '/' ==> r[i] == s[i]
  {
    seq(|s|, i requires 0 <= i < |s| => if s[i] == '+' then '-' else if s[i] == '/' then '_' else s[i])
  }

  /** The reverse substitution `.replace(/-/g, '+').replace(/_/g, '/')`. */
  function FromUrlSafe(s: string): (r: string)
    ensures |r| == |s|
    ensures forall i :: 0 <= i < |r| ==> r[i] != '-' && r[i] != '_'
    ensures forall i :: 0 <= i < |s| && s[i] != '-' && s[i] != '_' ==> r[i] == s[i]
  {
    seq(|s|, i requires 0 <= i < |s| => if s[i] == '-' then '+' else if s[i] == '_' then '/' else s[i])
  }

  lemma UrlSafeRoundTrip(s: string)
    requires forall i :: 0 <= i < |s| ==> IsStandardChar(s[i])
    ensures forall i :: 0 <= i < |s| ==> IsUrlSafeChar(ToUrlSafe(s)[i])
    ensures FromUrlSafe(ToUrlSafe(s)) == s
  {
  }

  /** `.replace(/=+$/g, '')`: removes every trailing `=`. */
  function StripPadding(s: string): (r: string)
    ensures |r| <= |s| && r == s[..|r|]
    ensures |r| == 0 || r[|r| - 1] != '='
    ensures forall i :: |r| <= i < |s| ==> s[i] == '='
  {
    if |s| > 0 && s[|s| - 1] == '=' then StripPadding(s[..|s| - 1]) else s
  }

  /** `s + '='.repeat((4 - (s.length % 4)) % 4)`. */
  function RestorePadding(s: string): (r: string)
    ensures |r| % 4 == 0
    ensures |s| <= |r| < |s| + 4 && r[..|s|] == s
  {
    s + Repeat('=', (4 - |s| % 4) % 4)
  }

  lemma {:induction false} StripAppendedPadding(a: string, k: nat)
    requires |a| == 0 || a[|a| - 1] != '='
    ensures StripPadding(a + Repeat('=', k)) == a
  {
    if k > 0 {
      assert (a + Repeat('=', k))[..|a| + k - 1] == a + Repeat('=', k - 1);
      StripAppendedPadding(a, k - 1);
    } else {
      assert a + Repeat('=', 0) == a;
    }
  }

  lemma StripUrlSafe(u: string, k: nat)
    requires forall i :: 0 <= i < |u| ==> IsStandardChar(u[i])
    ensures StripPadding(ToUrlSafe(u + Repeat('=', k))) == ToUrlSafe(u)
  {
    assert ToUrlSafe(u + Repeat('=', k)) == ToUrlSafe(u) + Repeat('=', k);
    var v := ToUrlSafe(u);
    assert |v| > 0 ==> IsStandardChar(u[|u| - 1]) && v[|v| - 1] != '=';
    StripAppendedPadding(v, k);
  }

  lemma PadCountRestored(n: nat, len: nat)
    requires len == 4 * (n / 3) + (if n % 3 == 0 then 0 else n % 3 + 1)
    ensures (4 - len % 4) % 4 == PadCount(n)
    ensures len % 4 != 1
  {
    var q, r := n / 3, n % 3;
    assert n == 3 * q + r;
    assert len == 4 * q + (if r == 0 then 0 else r + 1);
    assert len % 4 == (if r == 0 then 0 else r + 1);
  }

  /** The padding the encoder strips is exactly what the decoder restores. */
  lemma RestoreStripped(b: seq<Byte>)
    ensures StripPadding(ToUrlSafe(Btoa(b))) == ToUrlSafe(Unpadded(b))
    ensures RestorePadding(Unpadded(b)) == Btoa(b)
  {
    StripOfBtoa(b);
    RestoreOfUnpadded(b);
  }

  lemma StripOfBtoa(b: seq<Byte>)
    ensures StripPadding(ToUrlSafe(Btoa(b))) == ToUrlSafe(Unpadded(b))
  {
    var u := Unpadded(b);
    assert Btoa(b) == u + Repeat('=', PadCount(|b|));
    StripUrlSafe(u, PadCount(|b|));
  }

  lemma RestoreOfUnpadded(b: seq<Byte>)
    ensures RestorePadding(Unpadded(b)) == Btoa(b)
  {
    var u := Unpadded(b);
    PadCountRestored(|b|, |u|);
    assert RestorePadding(u) == u + Repeat('=', PadCount(|b|));
  }
}
