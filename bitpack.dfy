/**
 * Bit-packing of the caught map used by the share link: slot `s` (1-based)
 * lives in bit `(s - 1) & 7` of byte `(s - 1) >> 3` of a `Uint8Array` of
 * `Math.ceil(slotCount / 8)` bytes.
 */
module BitPack {
  /** The caught map as the source stores it: slot number to flag. A slot that
    is absent reads as falsy, like a missing key of a JavaScript object. */
  type CaughtMap = map<int, bool>

  predicate Truthy(m: CaughtMap, slot: int) {
    slot in m && m[slot]
  }

  /** `Math.ceil(n / 8)` for a non-negative `n`. */
  function ByteCount(n: nat): (c: nat)
    ensures 8 * c >= n && (c > 0 ==> 8 * (c - 1) < n)
  {
    (n + 7) / 8
  }

  /** `1 << k` as it lands in a byte, for the eight bit positions. */
  function Mask(k: nat): bv8
    requires k < 8
  {
    [1, 2, 4, 8, 16, 32, 64, 128][k]
  }

  lemma MaskIsShift(k: nat)
    requires k < 8
    ensures Mask(k) == (1 as bv8) << k
  {
    if k == 0 {} else if k == 1 {} else if k == 2 {} else if k == 3 {}
    else if k == 4 {} else if k == 5 {} else if k == 6 {} else {}
  }

  predicate BitSet(b: bv8, k: nat)
    requires k < 8
  {
    b & Mask(k) != 0
  }

  /** The flag stored at slot 8j+k+1 by the encoder, as a single-bit byte. */
  function SlotBit(m: CaughtMap, n: nat, j: nat, k: nat): bv8
    requires k < 8
  {
    var s := 8 * j + k + 1;
    if s <= n && Truthy(m, s) then Mask(k) else 0
  }

  /** The bits below `k` of byte `j` after the slot loop has run. */
  function LowBits(m: CaughtMap, n: nat, j: nat, k: nat): bv8
    requires k <= 8
  {
    if k == 0 then 0 else LowBits(m, n, j, k - 1) | SlotBit(m, n, j, k - 1)
  }

  /** The packed buffer the encoder builds for slots 1..n. */
  function Packed(m: CaughtMap, n: nat): (r: seq<bv8>)
    ensures |r| == ByteCount(n)
  {
    seq(ByteCount(n), j requires 0 <= j => LowBits(m, n, j, 8))
  }

  lemma OrBit(x: bv8, k: nat, i: nat)
    requires k < 8 && i < 8
    ensures BitSet(x | Mask(k), i) == (BitSet(x, i) || i == k)
  {
  }

  lemma OrZero(x: bv8, i: nat)
    requires i < 8
    ensures BitSet(x | 0, i) == BitSet(x, i)
  {
  }

  lemma {:induction false} LowBitsAt(m: CaughtMap, n: nat, j: nat, k: nat, i: nat)
    requires k <= 8 && i < 8
    ensures BitSet(LowBits(m, n, j, k), i) == (i < k && 8 * j + i + 1 <= n && Truthy(m, 8 * j + i + 1))
  {
    if k > 0 {
      LowBitsAt(m, n, j, k - 1, i);
      LowBitsStep(m, n, j, k, i);
    }
  }

  /** One more slot adds its own bit and leaves the others alone. */
  lemma LowBitsStep(m: CaughtMap, n: nat, j: nat, k: nat, i: nat)
    requires 0 < k <= 8 && i < 8
    ensures BitSet(LowBits(m, n, j, k), i)
      == (BitSet(LowBits(m, n, j, k - 1), i) || (i == k - 1 && SlotBit(m, n, j, k - 1) != 0))
  {
    var lo := LowBits(m, n, j, k - 1);
    if SlotBit(m, n, j, k - 1) != 0 {
      OrBit(lo, k - 1, i);
    } else {
      OrZero(lo, i);
    }
  }

  /** The byte index and bit of a slot, computed as the source does with
    `>> 3` and `& 7`, which agree with `/ 8` and `% 8` on non-negative values. */
  function ByteIndex(slot: int): int { (slot - 1) / 8 }
  function BitIndex(slot: int): (k: nat) ensures k < 8 { (slot - 1) % 8 }

  /** Each slot in range has its own bit: set exactly when the slot is truthy;
    every bit past slot `n` is clear. */
  lemma PackedBit(m: CaughtMap, n: nat, slot: int)
    requires 1 <= slot && ByteIndex(slot) < ByteCount(n)
    ensures BitSet(Packed(m, n)[ByteIndex(slot)], BitIndex(slot)) == (slot <= n && Truthy(m, slot))
  {
    LowBitsAt(m, n, ByteIndex(slot), 8, BitIndex(slot));
  }

  /** The decoder's read of one slot: bytes past the end read as zero. */
  predicate ReadSlot(bytes: seq<bv8>, slot: int)
    requires slot >= 1
  {
    ByteIndex(slot) < |bytes| && BitSet(bytes[ByteIndex(slot)], BitIndex(slot))
  }

  /** The map the decoder builds for slots 1..n. */
  function Unpacked(bytes: seq<bv8>, n: nat): (r: CaughtMap)
    ensures forall s :: s in r <==> 1 <= s <= n
  {
    map s | 1 <= s <= n :: ReadSlot(bytes, s)
  }

  /** Unpacking the packed buffer with the same slot count gives back the
    truthiness of every slot 1..n and no other key. */
  lemma UnpackPacked(m: CaughtMap, n: nat)
    ensures forall s :: s in Unpacked(Packed(m, n), n) <==> 1 <= s <= n
    ensures forall s :: 1 <= s <= n ==> Unpacked(Packed(m, n), n)[s] == Truthy(m, s)
  {
    forall s | 1 <= s <= n
      ensures Unpacked(Packed(m, n), n)[s] == Truthy(m, s)
    {
      PackedBit(m, n, s);
    }
  }

  /** A decoder given more slots than were encoded reads the extra ones as
    uncaught. */
  lemma UnpackPastEnd(m: CaughtMap, n: nat, n2: nat, s: int)
    requires n < s <= n2
    ensures !Unpacked(Packed(m, n), n2)[s]
  {
    if ByteIndex(s) < ByteCount(n) {
      PackedBit(m, n, s);
    }
  }

  /** Two bytes with the same eight bits are equal. */
  lemma SameBits(x: bv8, y: bv8)
    requires forall i :: 0 <= i < 8 ==> BitSet(x, i) == BitSet(y, i)
    ensures x == y
  {
    assert BitSet(x, 0) == BitSet(y, 0) && BitSet(x, 1) == BitSet(y, 1);
    assert BitSet(x, 2) == BitSet(y, 2) && BitSet(x, 3) == BitSet(y, 3);
    assert BitSet(x, 4) == BitSet(y, 4) && BitSet(x, 5) == BitSet(y, 5);
    assert BitSet(x, 6) == BitSet(y, 6) && BitSet(x, 7) == BitSet(y, 7);
  }

  /** The encoder's slot loop: `bytes[(slot - 1) >> 3] |= 1 << ((slot - 1) & 7)`
    for every truthy slot 1..n of a zero-filled buffer. */
  method PackSlots(m: CaughtMap, n: nat) returns (r: seq<bv8>)
    ensures r == Packed(m, n)
  {
    var bytes := new bv8[ByteCount(n)](_ => 0);
    var slot := 1;
    while slot <= n
      invariant 1 <= slot <= n + 1
      invariant FilledBelow(m, bytes[..], slot)
    {
      ghost var before := bytes[..];
      if Truthy(m, slot) {
        var j, k := ByteIndex(slot), BitIndex(slot);
        bytes[j] := bytes[j] | Mask(k);
        assert bytes[..] == before[j := before[j] | Mask(k)];
      }
      PackStep(m, before, bytes[..], slot);
      slot := slot + 1;
    }
    r := bytes[..];
    PackedByBits(m, n, r);
  }

  /** The loop invariant: the bits of the slots below `slot` hold their
    truthiness, all other bits are clear. */
  ghost predicate FilledBelow(m: CaughtMap, b: seq<bv8>, slot: int) {
    forall j, i :: 0 <= j < |b| && 0 <= i < 8 ==>
      BitSet(b[j], i) == (8 * j + i + 1 < slot && Truthy(m, 8 * j + i + 1))
  }

  /** One turn of the encoder's loop: setting the bit of a truthy slot, or
    nothing for a falsy one, extends the invariant by that slot. */
  lemma PackStep(m: CaughtMap, before: seq<bv8>, after: seq<bv8>, slot: int)
    requires slot >= 1 && ByteIndex(slot) < |before| && FilledBelow(m, before, slot)
    requires after == if Truthy(m, slot)
      then before[ByteIndex(slot) := before[ByteIndex(slot)] | Mask(BitIndex(slot))]
      else before
    ensures FilledBelow(m, after, slot + 1)
  {
    var j0, k := ByteIndex(slot), BitIndex(slot);
    assert 8 * j0 + k + 1 == slot;
    forall j, i | 0 <= j < |after| && 0 <= i < 8
      ensures BitSet(after[j], i) == (8 * j + i + 1 < slot + 1 && Truthy(m, 8 * j + i + 1))
    {
      if j == j0 && Truthy(m, slot) {
        OrBit(before[j], k, i);
      }
    }
  }

  /** A buffer of the right size whose bits are the truthy slots 1..n is the
    packed buffer. */
  lemma PackedByBits(m: CaughtMap, n: nat, r: seq<bv8>)
    requires |r| == ByteCount(n)
    requires forall j, i :: 0 <= j < |r| && 0 <= i < 8 ==>
      BitSet(r[j], i) == (8 * j + i + 1 < n + 1 && Truthy(m, 8 * j + i + 1))
    ensures r == Packed(m, n)
  {
    forall j | 0 <= j < |r|
      ensures r[j] == Packed(m, n)[j]
    {
      forall i | 0 <= i < 8
        ensures BitSet(r[j], i) == BitSet(Packed(m, n)[j], i)
      {
        LowBitsAt(m, n, j, 8, i);
      }
      SameBits(r[j], Packed(m, n)[j]);
    }
  }

  /** The decoder's slot loop: `caught[slot] = !!(bytes[i >> 3] & (1 << (i & 7)))`. */
  method UnpackSlots(bytes: seq<bv8>, n: nat) returns (caught: CaughtMap)
    ensures caught == Unpacked(bytes, n)
  {
    caught := map[];
    var slot := 1;
    while slot <= n
      invariant 1 <= slot <= n + 1
      invariant forall s :: s in caught <==> 1 <= s < slot
      invariant forall s :: s in caught ==> caught[s] == ReadSlot(bytes, s)
    {
      var i := slot - 1;
      var bit := i / 8 < |bytes| && bytes[i / 8] & Mask(i % 8) != 0;
      assert bit == ReadSlot(bytes, slot);
      caught := caught[slot := bit];
      slot := slot + 1;
    }
    assert caught == Unpacked(bytes, n);
  }
}
