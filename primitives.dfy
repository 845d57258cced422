/**
 * The bit-level helpers that lib/utils_mrfsk.h declares but whose bodies live
 * in another translation unit that is not part of this model. Each one is an
 * uninterpreted constant of function type: nothing is assumed about it, and
 * every property that needs a fact about one of them takes that fact as an
 * explicit hypothesis (a predicate below).
 *
 * Stateful C calls become pure functions: `get_pn9_byte(&lfsr)` returns the next
 * whitening byte and the advanced register; the multi-byte CRC calls are the
 * left fold of the one-byte update.
 */
module Primitives {

  /** `uint8_t get_pn9_byte(uint16_t *lfsr)`: (next whitening byte, new register). */
  const GetPn9Byte: bv16 -> (bv8, bv16)

  /** `uint8_t reverse_octet(uint8_t)`. */
  const ReverseOctet: bv8 -> bv8

  /** `uint16_t crc_msb_first(uint16_t crc, p, 1)`: the CRC-16 update by one byte. */
  const CrcMsbFirst: (bv16, bv8) -> bv16

  /** `digital_update_crc32(crc, p, 1)`: the CRC-32 update by one byte. */
  const UpdateCrc32: (bv32, bv8) -> bv32

  /**
   * `void interleave(uint8_t *buf)`: the transmit-side permutation of four
   * consecutive buffer bytes, seen on the big-endian word of those bytes
   * (the order in which they go on the air).
   */
  const Interleave: bv32 -> bv32

  /** `void interleave_u32(uint32_t *)`: the receive-side permutation of a word. */
  const InterleaveU32: bv32 -> bv32

  /** The PN9 register value every whitened frame starts from. */
  const PN9_SEED: bv16 := 0x1FF

  // ---------------------------------------------------------------------
  // Hypotheses about the primitives (used only as explicit requirements)
  // ---------------------------------------------------------------------

  /**
   * CRC-16 as used here (MSB first, no final inversion) has residue zero:
   * running it over a register's own two bytes, high byte first, gives 0.
   */
  ghost predicate Crc16ZeroResidue()
  {
    forall c: bv16 {:trigger CrcMsbFirst(c, HighByte(c))} ::
      CrcMsbFirst(CrcMsbFirst(c, HighByte(c)), LowByte(c)) == 0
  }

  /** The receive permutation undoes the transmit permutation. */
  ghost predicate InterleavePaired()
  {
    forall w: bv32 {:trigger Interleave(w)} :: InterleaveU32(Interleave(w)) == w
  }

  // ---------------------------------------------------------------------
  // Byte and word helpers
  // ---------------------------------------------------------------------

  function HighByte(w: bv16): bv8 { (w >> 8) as bv8 }

  function LowByte(w: bv16): bv8 { (w & 0xFF) as bv8 }

  /** The bytes of a 32-bit word, most significant first. */
  function BigEndian32(w: bv32): (r: seq<bv8>)
    ensures |r| == 4
  {
    [(w >> 24) as bv8, ((w >> 16) & 0xFF) as bv8, ((w >> 8) & 0xFF) as bv8, (w & 0xFF) as bv8]
  }

  /** Four bytes read as a big-endian word. */
  function Word32(b: seq<bv8>): bv32
    requires |b| == 4
  {
    ((b[0] as bv32) << 24) | ((b[1] as bv32) << 16) | ((b[2] as bv32) << 8) | (b[3] as bv32)
  }

  lemma Word32BigEndian(w: bv32)
    ensures Word32(BigEndian32(w)) == w
  {
  }

  lemma BigEndian32Word(b: seq<bv8>)
    requires |b| == 4
    ensures BigEndian32(Word32(b)) == b
  {
    var r := BigEndian32(Word32(b));
    assert r[0] == b[0] && r[1] == b[1] && r[2] == b[2] && r[3] == b[3];
  }

  // ---------------------------------------------------------------------
  // Whitening (PN9 keystream XOR)
  // ---------------------------------------------------------------------

  /** The first `n` bytes `get_pn9_byte` returns from register `lfsr`. */
  function Pn9Keystream(lfsr: bv16, n: nat): (ks: seq<bv8>)
    ensures |ks| == n
    decreases n
  {
    if n == 0 then [] else [GetPn9Byte(lfsr).0] + Pn9Keystream(GetPn9Byte(lfsr).1, n - 1)
  }

  /** The register after `n` calls of `get_pn9_byte`. */
  function Pn9After(lfsr: bv16, n: nat): bv16
    decreases n
  {
    if n == 0 then lfsr else Pn9After(GetPn9Byte(lfsr).1, n - 1)
  }

  /** One more call extends the keystream by the byte drawn from the register reached so far. */
  lemma {:induction false} Pn9KeystreamSnoc(lfsr: bv16, n: nat)
    ensures Pn9Keystream(lfsr, n + 1) == Pn9Keystream(lfsr, n) + [GetPn9Byte(Pn9After(lfsr, n)).0]
    ensures Pn9After(lfsr, n + 1) == GetPn9Byte(Pn9After(lfsr, n)).1
    decreases n
  {
    if n > 0 {
      Pn9KeystreamSnoc(GetPn9Byte(lfsr).1, n - 1);
    }
  }

  /** The `k`-th keystream byte is the one drawn from the register reached after `k` calls. */
  lemma {:induction false} Pn9KeystreamAt(lfsr: bv16, n: nat, k: nat)
    requires k < n
    ensures Pn9Keystream(lfsr, n)[k] == GetPn9Byte(Pn9After(lfsr, k)).0
    decreases k
  {
    if k > 0 {
      Pn9KeystreamAt(GetPn9Byte(lfsr).1, n - 1, k - 1);
    }
  }

  function XorBytes(a: seq<bv8>, b: seq<bv8>): (r: seq<bv8>)
    requires |a| == |b|
    ensures |r| == |a|
    ensures forall i :: 0 <= i < |r| ==> r[i] == a[i] ^ b[i]
  {
    seq(|a|, i requires 0 <= i < |a| => a[i] ^ b[i])
  }

  /** Whitening of a PSDU: XOR with the PN9 keystream started at the seed. */
  function Whiten(data: seq<bv8>): (r: seq<bv8>)
    ensures |r| == |data|
  {
    XorBytes(data, Pn9Keystream(PN9_SEED, |data|))
  }

  /** Whitening is its own inverse. */
  lemma WhitenInvolution(data: seq<bv8>)
    ensures Whiten(Whiten(data)) == data
  {
    var w := Whiten(data);
    var k := Pn9Keystream(PN9_SEED, |data|);
    forall i | 0 <= i < |data| ensures Whiten(w)[i] == data[i] {
      assert Whiten(w)[i] == (data[i] ^ k[i]) ^ k[i];
    }
  }

  // ---------------------------------------------------------------------
  // Running CRCs
  // ---------------------------------------------------------------------

  /** `crc_msb_first(crc, bytes, |bytes|)`. */
  function Crc16Over(crc: bv16, bytes: seq<bv8>): bv16
    decreases |bytes|
  {
    if |bytes| == 0 then crc
    else CrcMsbFirst(Crc16Over(crc, bytes[..|bytes| - 1]), bytes[|bytes| - 1])
  }

  /** `digital_update_crc32(crc, bytes, |bytes|)`. */
  function Crc32Over(crc: bv32, bytes: seq<bv8>): bv32
    decreases |bytes|
  {
    if |bytes| == 0 then crc
    else UpdateCrc32(Crc32Over(crc, bytes[..|bytes| - 1]), bytes[|bytes| - 1])
  }

  /** Running the CRC-16 over a concatenation is running it over each part in turn. */
  lemma {:induction false} Crc16OverAppend(crc: bv16, a: seq<bv8>, b: seq<bv8>)
    ensures Crc16Over(crc, a + b) == Crc16Over(Crc16Over(crc, a), b)
    decreases |b|
  {
    if |b| > 0 {
      assert (a + b)[..|a + b| - 1] == a + b[..|b| - 1];
      Crc16OverAppend(crc, a, b[..|b| - 1]);
    } else {
      assert a + b == a;
    }
  }

  /** Running the CRC-32 over a concatenation is running it over each part in turn. */
  lemma {:induction false} Crc32OverAppend(crc: bv32, a: seq<bv8>, b: seq<bv8>)
    ensures Crc32Over(crc, a + b) == Crc32Over(Crc32Over(crc, a), b)
    decreases |b|
  {
    if |b| > 0 {
      assert (a + b)[..|a + b| - 1] == a + b[..|b| - 1];
      Crc32OverAppend(crc, a, b[..|b| - 1]);
    } else {
      assert a + b == a;
    }
  }

  /** Appending a CRC-16 to the bytes it was computed over leaves residue zero. */
  lemma Crc16AppendedResidue(data: seq<bv8>)
    requires Crc16ZeroResidue()
    ensures Crc16Over(0, data + [HighByte(Crc16Over(0, data)), LowByte(Crc16Over(0, data))]) == 0
  {
    var c := Crc16Over(0, data);
    var tail := [HighByte(c), LowByte(c)];
    Crc16OverAppend(0, data, tail);
    assert tail[..1] == [HighByte(c)];
    assert [HighByte(c)][..0] == [];
    assert Crc16Over(c, [HighByte(c)]) == CrcMsbFirst(c, HighByte(c));
    assert Crc16Over(c, tail) == CrcMsbFirst(CrcMsbFirst(c, HighByte(c)), LowByte(c));
  }

  /** `n` zero bytes (the CRC-32 padding). */
  function Zeros(n: nat): (z: seq<bv8>)
    ensures |z| == n && forall i :: 0 <= i < n ==> z[i] == 0
  {
    seq(n, _ => 0)
  }

  /** Padding with one zero octet more is one more update by zero at the end. */
  lemma Crc32OverZerosSnoc(crc: bv32, n: nat)
    ensures Crc32Over(crc, Zeros(n + 1)) == UpdateCrc32(Crc32Over(crc, Zeros(n)), 0)
  {
    assert Zeros(n + 1)[..n] == Zeros(n);
  }

  /** Padding with `n` + 1 zero octets is one update by zero, then `n` more. */
  lemma Crc32OverZerosCons(crc: bv32, n: nat)
    ensures Crc32Over(crc, Zeros(n + 1)) == Crc32Over(UpdateCrc32(crc, 0), Zeros(n))
  {
    assert Zeros(n + 1) == [0] + Zeros(n);
    Crc32OverAppend(crc, [0], Zeros(n));
    assert [0 as bv8][..0] == [];
  }
}
