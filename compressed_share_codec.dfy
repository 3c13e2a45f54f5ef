/**
 * `encodeCaughtState` / `decodeCaughtState` of the split UI module: the packed
 * bytes pass through `pako.deflate` before Base64 and `pako.inflate` after it.
 * The compressor is a parameter: `None` from `deflate` or `inflate` stands for
 * an exception (a missing library, corrupt data).
 */
module CompressedShareCodec {
  import opened Wrappers
  import opened BitPack
  import opened ShareToken

  type Compressor = seq<bv8> -> Option<seq<bv8>>

  /** What the library is assumed to guarantee: a successful deflate yields a
    non-empty stream (a zlib stream has a header) that inflates back. */
  ghost predicate InflatesBack(deflate: Compressor, inflate: Compressor) {
    forall b :: deflate(b).Some? ==>
      |deflate(b).value| > 0 && inflate(deflate(b).value) == Some(b)
  }

  /** The share hash, or `''` when compression throws. */
  function CompressedLink(caught: CaughtMap, n: nat, deflate: Compressor): (r: string)
    ensures r == "" <==> deflate(Packed(caught, n)).None?
    ensures r != "" ==> |r| >= 3 && r[..3] == Marker
  {
    match deflate(Packed(caught, n))
    case None => ""
    case Some(compressed) => Marker + TokenFor(compressed)
  }

  function DecodeCompressed(hash: string, n: nat, inflate: Compressor): (r: Option<CaughtMap>)
    ensures r.Some? ==> FindToken(hash).Some?
    ensures r.Some? ==> forall s :: s in r.value <==> 1 <= s <= n
  {
    match FindToken(hash)
    case None => None
    case Some(token) =>
      match BytesOf(token)
      case None => None
      case Some(compressed) =>
        match inflate(compressed)
        case None => None
        case Some(bytes) => Some(Unpacked(bytes, n))
  }

  method EncodeCaughtState(caught: CaughtMap, slotCount: nat, deflate: Compressor) returns (hash: string)
    ensures hash == CompressedLink(caught, slotCount, deflate)
  {
    var bytes := PackSlots(caught, slotCount);
    var compressed := deflate(bytes);
    if compressed.None? {
      return "";
    }
    hash := Marker + TokenFor(compressed.value);
  }

  method DecodeCaughtState(hash: string, slotCount: nat, inflate: Compressor) returns (r: Option<CaughtMap>)
    ensures r == DecodeCompressed(hash, slotCount, inflate)
  {
    var token := FindToken(hash);
    if token.None? {
      return None;
    }
    var compressed := BytesOf(token.value);
    if compressed.None? {
      return None;
    }
    var bytes := inflate(compressed.value);
    if bytes.None? {
      return None;
    }
    var caught := UnpackSlots(bytes.value, slotCount);
    r := Some(caught);
  }

  /** With a compressor that inflates back, decoding the link with the same
    slot count restores every slot 1..slotCount; if compression throws, the
    link is `''`, which decodes to `null`. Unlike the uncompressed link this
    also holds for zero slots, since the stream is never empty. */
  lemma CompressedRoundTrip(caught: CaughtMap, n: nat, deflate: Compressor, inflate: Compressor, rest: string)
    requires InflatesBack(deflate, inflate)
    requires rest == [] || rest[0] == '&'
    ensures deflate(Packed(caught, n)).None? ==>
      CompressedLink(caught, n, deflate) == "" && DecodeCompressed("", n, inflate) == None
    ensures deflate(Packed(caught, n)).Some? ==>
      var d := DecodeCompressed(CompressedLink(caught, n, deflate) + rest, n, inflate);
      d.Some? && (forall s :: s in d.value <==> 1 <= s <= n) &&
      forall s :: 1 <= s <= n ==> d.value[s] == Truthy(caught, s)
  {
    var bytes := Packed(caught, n);
    if deflate(bytes).Some? {
      var compressed := deflate(bytes).value;
      TokenRoundTrip(compressed);
      FindLinkToken(TokenFor(compressed), rest);
      UnpackPacked(caught, n);
    }
  }

  /** The link is `''` or `#s=` followed only by URL-safe alphabet characters. */
  lemma CompressedLinkAlphabet(caught: CaughtMap, n: nat, deflate: Compressor)
    ensures var link := CompressedLink(caught, n, deflate);
      link == "" || (link[..3] == "#s=" && forall i :: 3 <= i < |link| ==> Base64.IsUrlSafeChar(link[i]))
  {
    var bytes := Packed(caught, n);
    if deflate(bytes).Some? {
      TokenRoundTrip(deflate(bytes).value);
    }
  }
}
