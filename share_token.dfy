/**
 * The text side of the share link shared by both codec variants: the `#s=`
 * marker, the token the regular expression `/#s=([^&]+)/` captures, and the
 * byte/token conversion `bytes -> binary string -> btoa -> URL-safe -> strip`
 * with its reverse `token -> standard alphabet -> pad -> atob -> bytes`.
 */
module ShareToken {
  import opened Wrappers
  import opened Base64

  const Marker: string := "#s="

  /** `String.fromCharCode(byte)` for each byte: the binary string's codes. */
  function ToBinary(bytes: seq<bv8>): (r: seq<Byte>)
    ensures |r| == |bytes|
  {
    seq(|bytes|, i requires 0 <= i < |bytes| => bytes[i] as int)
  }

  /** `binary.charCodeAt(i)` stored into a `Uint8Array`. */
  function FromBinary(codes: seq<Byte>): (r: seq<bv8>)
    ensures |r| == |codes|
  {
    seq(|codes|, i requires 0 <= i < |codes| => codes[i] as bv8)
  }

  lemma ByteCodeRoundTrip(x: bv8)
    ensures (x as int) as bv8 == x
  {
  }

  lemma BinaryRoundTrip(bytes: seq<bv8>)
    ensures FromBinary(ToBinary(bytes)) == bytes
  {
    forall i | 0 <= i < |bytes|
      ensures FromBinary(ToBinary(bytes))[i] == bytes[i]
    {
      ByteCodeRoundTrip(bytes[i]);
    }
  }

  /** The characters after `#s=` in an encoded link. */
  function TokenFor(bytes: seq<bv8>): (r: string)
    ensures forall i :: 0 <= i < |r| ==> r[i] != '+' && r[i] != '/'
    ensures |r| == 0 || r[|r| - 1] != '='
  {
    StripPadding(ToUrlSafe(Btoa(ToBinary(bytes))))
  }

  /** The bytes a captured token decodes to, `None` where `atob` throws. */
  function BytesOf(token: string): (r: Option<seq<bv8>>)
    ensures r.Some? ==> 4 * |r.value| <= 3 * (|token| + 3)
  {
    var restored := RestorePadding(FromUrlSafe(token));
    match Atob(restored)
    case None => None
    case Some(codes) => Some(FromBinary(codes))
  }

  /** The token is drawn from the URL-safe alphabet (no `+`, `/` or `=`), is
    empty exactly when there are no bytes, and decodes back to the bytes. */
  lemma TokenRoundTrip(bytes: seq<bv8>)
    ensures forall i :: 0 <= i < |TokenFor(bytes)| ==> IsUrlSafeChar(TokenFor(bytes)[i])
    ensures (|TokenFor(bytes)| == 0) == (|bytes| == 0)
    ensures BytesOf(TokenFor(bytes)) == Some(bytes)
  {
    var codes := ToBinary(bytes);
    RestoreStripped(codes);
    UrlSafeRoundTrip(Unpadded(codes));
    AtobBtoa(codes);
    BinaryRoundTrip(bytes);
  }

  /** The leading run of characters other than `&`: `[^&]+` is greedy. */
  function TakeToken(t: string): (r: string)
    ensures |r| <= |t| && r == t[..|r|]
    ensures forall i :: 0 <= i < |r| ==> r[i] != '&'
    ensures |r| == |t| || t[|r|] == '&'
  {
    if t == [] || t[0] == '&' then [] else [t[0]] + TakeToken(t[1..])
  }

  /** `/#s=([^&]+)/.exec(hash)`: the leftmost `#s=` that is followed by a
    character other than `&`, and the token after it. */
  function FindToken(hash: string): (r: Option<string>)
    ensures r.Some? ==> |r.value| >= 1 && forall i :: 0 <= i < |r.value| ==> r.value[i] != '&'
    decreases |hash|
  {
    if |hash| < 4 then None
    else if hash[..3] == Marker && hash[3] != '&' then Some(TakeToken(hash[3..]))
    else FindToken(hash[1..])
  }

  lemma {:induction false} TakeWholeToken(tok: string, rest: string)
    requires forall i :: 0 <= i < |tok| ==> tok[i] != '&'
    requires rest == [] || rest[0] == '&'
    ensures TakeToken(tok + rest) == tok
  {
    if tok == [] {
      assert tok + rest == rest;
    } else {
      assert (tok + rest)[1..] == tok[1..] + rest;
      TakeWholeToken(tok[1..], rest);
    }
  }

  /** A link `#s=<token>` followed by nothing or by `&...` yields exactly its token. */
  lemma FindLinkToken(tok: string, rest: string)
    requires |tok| >= 1 && forall i :: 0 <= i < |tok| ==> tok[i] != '&'
    requires rest == [] || rest[0] == '&'
    ensures FindToken(Marker + tok + rest) == Some(tok)
  {
    var h := Marker + tok + rest;
    assert h[..3] == Marker && h[3] == tok[0];
    assert h[3..] == tok + rest;
    TakeWholeToken(tok, rest);
  }

  /** Whether `#s=` starts at position `i` of `hash`. */
  predicate MarkerAt(hash: string, i: nat) {
    i + 3 <= |hash| && hash[i] == '#' && hash[i + 1] == 's' && hash[i + 2] == '='
  }

  /** Without a `#s=` marker there is no match. */
  lemma {:induction false} NoMarkerNoToken(hash: string)
    requires forall i: nat :: !MarkerAt(hash, i)
    ensures FindToken(hash) == None
    decreases |hash|
  {
    if |hash| >= 4 {
      assert !MarkerAt(hash, 0);
      assert hash[..3] != Marker;
      forall i: nat
        ensures !MarkerAt(hash[1..], i)
      {
        assert !MarkerAt(hash, i + 1);
      }
      NoMarkerNoToken(hash[1..]);
    }
  }

  /** The bare marker `#s=`, as produced for zero bytes, captures nothing:
    matching resumes after it. */
  lemma BareMarkerNoToken(rest: string)
    requires rest == [] || rest[0] == '&'
    ensures FindToken(Marker + rest) == FindToken(rest)
  {
    var h := Marker + rest;
    if |h| >= 4 {
      assert h[3] == '&';
      var h1 := h[1..];
      assert h1 == "s=" + rest;
      if |h1| >= 4 {
        assert h1[0] == 's';
        var h2 := h1[1..];
        assert h2 == "=" + rest;
        if |h2| >= 4 {
          assert h2[..3][0] == '=';
          assert h2[1..] == rest;
          assert FindToken(h2) == FindToken(rest);
        }
        assert h1[..3][0] == 's';
        assert FindToken(h1) == FindToken(h2);
      }
    }
  }
}
