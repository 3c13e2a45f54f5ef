/**
 * `encodeCaughtState` / `decodeCaughtState` of the monolithic app: the packed
 * caught map is put into the link with no compression.
 */
module ShareCodec {
  import opened Wrappers
  import opened BitPack
  import opened ShareToken

  /** The share hash for slots 1..n. */
  function ShareLink(caught: CaughtMap, n: nat): (r: string)
    ensures |r| >= 3 && r[..3] == Marker
    ensures r == Marker <==> n == 0
  {
    TokenRoundTrip(Packed(caught, n));
    Marker + TokenFor(Packed(caught, n))
  }

  /** The decoded map for a location hash; `None` for `null`. The URI
    component decoding applied before `atob` is the identity on tokens. */
  function DecodeShare(hash: string, n: nat): (r: Option<CaughtMap>)
    ensures r.Some? ==> FindToken(hash).Some?
    ensures r.Some? ==> forall s :: s in r.value <==> 1 <= s <= n
  {
    match FindToken(hash)
    case None => None
    case Some(token) =>
      match BytesOf(token)
      case None => None
      case Some(bytes) => Some(Unpacked(bytes, n))
  }

  method EncodeCaughtState(caught: CaughtMap, n: nat) returns (hash: string)
    ensures hash == ShareLink(caught, n)
  {
    var bytes := PackSlots(caught, n);
    hash := Marker + TokenFor(bytes);
  }

  method DecodeCaughtState(hash: string, n: nat) returns (r: Option<CaughtMap>)
    ensures r == DecodeShare(hash, n)
  {
    var token := FindToken(hash);
    if token.None? {
      return None;
    }
    var bytes := BytesOf(token.value);
    if bytes.None? {
      return None;
    }
    var caught := UnpackSlots(bytes.value, n);
    r := Some(caught);
  }

  /** Decoding a link made for `n >= 1` slots, possibly followed by further
    `&`-separated parameters, restores the truthiness of every slot 1..n and
    holds no other key. */
  lemma ShareRoundTrip(caught: CaughtMap, n: nat, rest: string)
    requires n >= 1
    requires rest == [] || rest[0] == '&'
    ensures DecodeShare(ShareLink(caught, n) + rest, n).Some?
    ensures forall s :: s in DecodeShare(ShareLink(caught, n) + rest, n).value <==> 1 <= s <= n
    ensures forall s :: 1 <= s <= n ==> DecodeShare(ShareLink(caught, n) + rest, n).value[s] == Truthy(caught, s)
  {
    var bytes := Packed(caught, n);
    var tok := TokenFor(bytes);
    TokenRoundTrip(bytes);
    FindLinkToken(tok, rest);
    assert DecodeShare(ShareLink(caught, n) + rest, n) == Some(Unpacked(bytes, n));
    UnpackPacked(caught, n);
  }

  /** With no slots the buffer is empty: the link is exactly `#s=`, and that
    link decodes to `null` because the token pattern needs one character. */
  lemma EmptyShare(caught: CaughtMap, n2: nat)
    ensures ShareLink(caught, 0) == "#s="
    ensures DecodeShare(ShareLink(caught, 0), n2) == None
  {
    TokenRoundTrip(Packed(caught, 0));
    BareMarkerNoToken([]);
  }

  /** The link is `#s=` followed only by URL-safe alphabet characters. */
  lemma ShareLinkAlphabet(caught: CaughtMap, n: nat)
    ensures ShareLink(caught, n)[..3] == "#s="
    ensures forall i :: 3 <= i < |ShareLink(caught, n)| ==> Base64.IsUrlSafeChar(ShareLink(caught, n)[i])
  {
    TokenRoundTrip(Packed(caught, n));
  }

  /** A hash with no `#s=` marker decodes to `null`. */
  lemma NoMarkerNull(hash: string, n: nat)
    requires forall i: nat :: !MarkerAt(hash, i)
    ensures DecodeShare(hash, n) == None
  {
    NoMarkerNoToken(hash);
  }
}
