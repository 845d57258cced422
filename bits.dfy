/**
 * Single bits of octets and of octet buffers, most significant bit first:
 * the `bp`/`db_bp`/`rf_bp` masks the encoder and the FEC deframer move along
 * their buffers, and the bit each one sets or clears.
 */
module Bits {
  /** The mask of bit `k` of an octet, MSB first: 0x80 >> `k`. */
  function Mask(k: int): (m: bv8)
    requires 0 <= k < 8
  {
    MASKS[k]
  }

  const MASKS: seq<bv8> := [0x80, 0x40, 0x20, 0x10, 0x08, 0x04, 0x02, 0x01]

  /** A one-bit mask. */
  predicate IsMask(m: bv8)
  {
    m == 0x80 || m == 0x40 || m == 0x20 || m == 0x10 || m == 0x08 || m == 0x04 || m == 0x02 || m == 0x01
  }

  /** The position of a one-bit mask in its octet, MSB first. */
  function Lead(m: bv8): (k: int)
    ensures 0 <= k < 8
  {
    if m == 0x80 then 0 else if m == 0x40 then 1 else if m == 0x20 then 2 else if m == 0x10 then 3
    else if m == 0x08 then 4 else if m == 0x04 then 5 else if m == 0x02 then 6 else 7
  }

  /** The octet with the bits under the mask set, or cleared. */
  function SetBit(b: bv8, m: bv8, on: bool): bv8
  {
    if on then b | m else b & !m
  }

  /** Mask and Lead are inverse on masks. */
  lemma MaskLead(m: bv8)
    requires IsMask(m)
    ensures Mask(Lead(m)) == m
  {
  }

  /** Every bit position has a mask, and Lead finds the position again. */
  lemma LeadMask(k: int)
    requires 0 <= k < 8
    ensures IsMask(Mask(k)) && Lead(Mask(k)) == k
  {
    if k == 0 {} else if k == 1 {} else if k == 2 {} else if k == 3 {}
    else if k == 4 {} else if k == 5 {} else if k == 6 {} else {}
  }

  /**
   * Shifting a mask right moves it one bit down; past the last bit it is
   * zero, and 0x80 restarts it at bit 0.
   */
  lemma MaskMoves(m: bv8)
    requires IsMask(m)
    ensures m >> 1 != 0 <==> Lead(m) < 7
    ensures m >> 1 != 0 ==> IsMask(m >> 1) && Lead(m >> 1) == Lead(m) + 1
    ensures IsMask(0x80) && Lead(0x80) == 0
  {
  }

  /** The `>>= 1` that walks a mask over an octet: to the next bit, or to zero after the last. */
  lemma MaskStep(j: int)
    requires 0 <= j < 8
    ensures Mask(j) >> 1 == if j < 7 then Mask(j + 1) else 0
    ensures j < 7 ==> Mask(j + 1) != 0
  {
    if j == 0 {} else if j == 1 {} else if j == 2 {} else if j == 3 {}
    else if j == 4 {} else if j == 5 {} else if j == 6 {} else {}
  }

  /** Bit `k` of the buffer, counting MSB first from the first octet. */
  predicate BufBit(buf: seq<bv8>, k: int)
    requires 0 <= k < 8 * |buf|
  {
    buf[k / 8] & Mask(k % 8) != 0
  }

  /** Setting or clearing under the mask of bit `k` changes bit `k` only. */
  lemma SetBitShows(b: bv8, k: int, on: bool, i: int)
    requires 0 <= k < 8 && 0 <= i < 8
    ensures (SetBit(b, Mask(k), on) & Mask(i) != 0) == if i == k then on else b & Mask(i) != 0
  {
  }

  /** Bit `k` of the buffer after bit `b` of octet `i` is set to `on`. */
  lemma WrittenBit(buf: seq<bv8>, i: int, b: int, on: bool, k: int)
    requires 0 <= i < |buf| && 0 <= b < 8 && 0 <= k < 8 * |buf|
    ensures BufBit(buf[i := SetBit(buf[i], Mask(b), on)], k) == if k == 8 * i + b then on else BufBit(buf, k)
  {
    if k / 8 == i {
      SetBitShows(buf[i], b, on, k % 8);
    } else {
      assert buf[i := SetBit(buf[i], Mask(b), on)][k / 8] == buf[k / 8];
    }
  }

  /** An octet is fixed by its eight bits. */
  lemma OctetByMasks(x: bv8, y: bv8)
    requires forall j :: 0 <= j < 8 ==> (x & Mask(j) != 0) == (y & Mask(j) != 0)
    ensures x == y
  {
    assert Mask(0) == 0x80 && Mask(1) == 0x40 && Mask(2) == 0x20 && Mask(3) == 0x10;
    assert Mask(4) == 0x08 && Mask(5) == 0x04 && Mask(6) == 0x02 && Mask(7) == 0x01;
  }

  /** Octet `i` of two buffers is the same when its eight bits are. */
  lemma OctetOfBits(a: seq<bv8>, b: seq<bv8>, i: int)
    requires 0 <= i < |a| && i < |b|
    requires forall k :: 8 * i <= k < 8 * i + 8 ==> BufBit(a, k) == BufBit(b, k)
    ensures a[i] == b[i]
  {
    forall j | 0 <= j < 8
      ensures (a[i] & Mask(j) != 0) == (b[i] & Mask(j) != 0)
    {
      assert (8 * i + j) / 8 == i && (8 * i + j) % 8 == j;
      assert BufBit(a, 8 * i + j) == BufBit(b, 8 * i + j);
    }
    OctetByMasks(a[i], b[i]);
  }
}
