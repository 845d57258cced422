/**
 * What a frame is made of, on both sides of the link: the PSDU the transmitter
 * builds in lib/mrfsk_source_impl.cc (payload, frame check sequence, optional
 * whitening), the CRC verdict the two receivers compute, and the record they
 * queue for every frame they finish.
 */
module Frame {
  import opened Primitives
  import opened Phr

  /** The payload patterns of include/ieee802154g/mrfsk_source.h. */
  const PAYLOAD_TYPE_INCR_BYTE: int := 0
  const PAYLOAD_TYPE_PN9: int := 1
  const PAYLOAD_TYPE_CRC_TEST: int := 2
  const PAYLOAD_PN9_FOREVER: int := 3

  /** The payload of the CRC test frame (section 18.1.2 example, 0x400056). */
  const CRC_TEST_PAYLOAD: seq<bv8> := [0x40, 0x00, 0x56]

  /**
   * A record the deframers put on their message queue: the message type
   * (0 uncoded, 1 FEC), the PHR word, the CRC verdict and the bytes received.
   */
  datatype Message = Message(kind: int, phr: bv16, crcOk: bool, bytes: seq<bv8>)

  /** Octets of frame check sequence: 2 for CRC-16, 4 for CRC-32. */
  function FcsLength(fcs16: bool): nat
  {
    if fcs16 then 2 else 4
  }

  /**
   * `psdu_size` as the constructor sets it: fixed for the CRC test frame,
   * otherwise the requested length raised, if need be, to hold the FCS.
   */
  function PsduSize(payloadType: int, fcs16: bool, psduLen: int): (n: int)
    ensures payloadType == PAYLOAD_TYPE_CRC_TEST ==> n == |CRC_TEST_PAYLOAD| + FcsLength(fcs16)
    ensures n >= FcsLength(fcs16)
    ensures payloadType != PAYLOAD_TYPE_CRC_TEST && psduLen >= FcsLength(fcs16) ==> n == psduLen
    ensures payloadType != PAYLOAD_TYPE_CRC_TEST && psduLen < FcsLength(fcs16) ==> n == FcsLength(fcs16)
  {
    if payloadType == PAYLOAD_TYPE_CRC_TEST then
      (if fcs16 then 5 else 7)
    else if fcs16 then
      (if psduLen < 2 then 2 else psduLen)
    else
      (if psduLen < 4 then 4 else psduLen)
  }

  /** `payload_incr_octet` after `n` increments: an 8-bit counter from 0. */
  function IncrCounter(n: nat): bv8
  {
    if n == 0 then 0 else IncrCounter(n - 1) + 1
  }

  /** The counter wraps at 256: after `n` increments it holds `n` mod 256. */
  lemma {:induction false} IncrCounterWraps(n: nat)
    ensures IncrCounter(n) as int == n % 256
  {
    if n > 0 {
      IncrCounterWraps(n - 1);
      OctetSucc(IncrCounter(n - 1));
      ModSucc(n - 1);
    }
  }

  /** Adding one to an octet wraps at 256. */
  lemma OctetSucc(x: bv8)
    ensures (x + 1) as int == (x as int + 1) % 256
  {
    if x == 255 {
      assert x + 1 == 0;
    } else {
      assert (x + 1) as int == x as int + 1;
    }
  }

  /** One more, modulo 256. */
  lemma ModSucc(m: nat)
    ensures (m % 256 + 1) % 256 == (m + 1) % 256
  {
  }

  /** The "incrementing" payload: the counter's successive values, each bit-reversed. */
  function IncrPayload(n: nat): (p: seq<bv8>)
    ensures |p| == n
  {
    if n == 0 then [] else IncrPayload(n - 1) + [ReverseOctet(IncrCounter(n - 1))]
  }

  /** Octet `i` of the incrementing payload is `i` mod 256, bit-reversed. */
  lemma {:induction false} IncrPayloadAt(n: nat, i: nat)
    requires i < n
    ensures IncrPayload(n)[i] == ReverseOctet((i % 256) as bv8)
  {
    if i < n - 1 {
      IncrPayloadAt(n - 1, i);
    } else {
      IncrCounterWraps(i);
    }
  }

  /**
   * The payload `generate_packet` writes before the FCS, given the number of
   * payload octets `psdu_size_wo_crc`; a payload type it does not know writes nothing.
   */
  function Payload(payloadType: int, len: nat): seq<bv8>
  {
    if payloadType == PAYLOAD_TYPE_CRC_TEST then CRC_TEST_PAYLOAD
    else if payloadType == PAYLOAD_TYPE_PN9 then Pn9Keystream(PN9_SEED, len)
    else if payloadType == PAYLOAD_TYPE_INCR_BYTE then IncrPayload(len)
    else []
  }

  /** For the three known types the payload fills the PSDU up to the FCS. */
  lemma PayloadLength(payloadType: int, fcs16: bool, psduLen: int)
    requires payloadType in {PAYLOAD_TYPE_INCR_BYTE, PAYLOAD_TYPE_PN9, PAYLOAD_TYPE_CRC_TEST}
    ensures var n := PsduSize(payloadType, fcs16, psduLen);
      |Payload(payloadType, n - FcsLength(fcs16))| + FcsLength(fcs16) == n
  {
  }

  /** Zero octets the CRC-32 runs over after the payload, so that it covers at least four. */
  function Crc32PadLength(payloadLen: nat): (z: nat)
    ensures payloadLen + z >= 4
    ensures payloadLen >= 4 ==> z == 0
    ensures payloadLen < 4 ==> payloadLen + z == 4
  {
    if payloadLen < 4 then 4 - payloadLen else 0
  }

  /**
   * The CRC-32 register both sides compare: seeded with INITIAL_CRC32, run over
   * the payload and the zero padding, then complemented.
   */
  function Fcs32Register(payload: seq<bv8>): bv32
  {
    !Crc32Over(Crc32Over(INITIAL_CRC32, payload), Zeros(Crc32PadLength(|payload|)))
  }

  /** The FCS octets appended after the payload, most significant first. */
  function Fcs(payload: seq<bv8>, fcs16: bool): (f: seq<bv8>)
    ensures |f| == FcsLength(fcs16)
  {
    if fcs16 then ToOctets(Crc16Over(INITIAL_CRC16, payload))
    else BigEndian32(Fcs32Register(payload))
  }

  /** The PSDU: payload then FCS, whitened as a whole when DW is set. */
  function Psdu(payload: seq<bv8>, fcs16: bool, dw: bool): (p: seq<bv8>)
    ensures |p| == |payload| + FcsLength(fcs16)
  {
    var plain := payload + Fcs(payload, fcs16);
    if dw then Whiten(plain) else plain
  }

  /** PHR octets (high first) followed by the PSDU: the `phr_psdu_buf` of `generate_packet`. */
  function PhrPsdu(psduSize: int, fcs16: bool, dw: bool, payload: seq<bv8>): (b: seq<bv8>)
    ensures |b| == PHR_LENGTH + |payload| + FcsLength(fcs16)
  {
    ToOctets(Make(psduSize, dw, fcs16)) + Psdu(payload, fcs16, dw)
  }

  /**
   * The receivers' CRC-32 verdict on the `n` received octets: the last four,
   * read big-endian, must equal the register over the others. A frame shorter
   * than its FCS fails (see Crc32Verdict for what the code does instead).
   */
  predicate Crc32Ok(data: seq<bv8>)
  {
    |data| >= 4 && Word32(data[|data| - 4..]) == Fcs32Register(data[..|data| - 4])
  }

  /** The receivers' CRC verdict: residue zero for CRC-16, the comparison above for CRC-32. */
  predicate CrcOk(fcs16: bool, data: seq<bv8>)
  {
    if fcs16 then Crc16Over(INITIAL_CRC16, data) == 0 else Crc32Ok(data)
  }

  /**
   * The CRC-32 verdict at the end of a frame of `cnt` octets: the register is
   * run over zero octets until eight would have been seen, complemented, and
   * compared with the last four octets read big-endian. Returns the new
   * register and the verdict; a frame shorter than four octets fails
   * (the code reads outside the frame there: see FramerSinkMrfsk.ShortFrameReadsBeforeBuffer
   * and FramerSinkNrnsc.EmptyFrameReadsBeforeBuffer).
   */
  function Crc32Verdict(crc: bv32, packet: seq<bv8>, cnt: int): (bv32, bool)
    requires 0 <= cnt <= |packet|
  {
    var reg := !PadRegister(crc, cnt);
    (reg, cnt >= 4 && Word32(packet[cnt - 4..cnt]) == reg)
  }

  /**
   * The buffer positions the receivers, as written, read the received FCS
   * from when the frame ends before position `end`: `end` - 1 down to `end` - 4,
   * with no guard on the frame's length.
   */
  function Crc32ReadIndices(end: int): (ix: seq<int>)
    ensures |ix| == 4 && forall i :: 0 <= i < 4 ==> ix[i] == end - 1 - i
  {
    [end - 1, end - 2, end - 3, end - 4]
  }

  /** The guarded verdict rejects a frame shorter than its FCS, whatever the register. */
  lemma ShortFrameRejected(crc: bv32, packet: seq<bv8>, cnt: int)
    requires 0 <= cnt < 4 && cnt <= |packet|
    ensures !Crc32Verdict(crc, packet, cnt).1
  {
  }

  /**
   * The CRC-32 register run over one zero octet for each count from `cnt`
   * up to eight: the padding loop of the check, by recursion on the count.
   */
  function PadRegister(crc: bv32, cnt: int): bv32
    decreases 8 - cnt
  {
    if cnt >= 8 then crc else PadRegister(UpdateCrc32(crc, 0), cnt + 1)
  }

  /** The padding is the CRC-32 run over 8 - `cnt` zero octets (none from eight on). */
  lemma {:induction false} PadRegisterZeros(crc: bv32, cnt: int)
    ensures PadRegister(crc, cnt) == Crc32Over(crc, Zeros(if cnt < 8 then 8 - cnt else 0))
    decreases 8 - cnt
  {
    if cnt < 8 {
      PadRegisterZeros(UpdateCrc32(crc, 0), cnt + 1);
      Crc32OverZerosCons(crc, 7 - cnt);
    }
  }

  /** When the register compared is the one over the data's payload, the verdict is Crc32Ok. */
  lemma VerdictAgrees(crc: bv32, packet: seq<bv8>, data: seq<bv8>)
    requires 4 <= |data| <= |packet| && packet[|data| - 4..|data|] == data[|data| - 4..]
    requires !PadRegister(crc, |data|) == Fcs32Register(data[..|data| - 4])
    ensures Crc32Verdict(crc, packet, |data|).1 == Crc32Ok(data)
  {
  }

  /** The register run over a payload, padded and complemented by the check, is Fcs32Register. */
  lemma RegisterPadded(crc: bv32, payload: seq<bv8>, cnt: int)
    requires crc == Crc32Over(INITIAL_CRC32, payload) && cnt == |payload| + 4
    ensures !PadRegister(crc, cnt) == Fcs32Register(payload)
  {
    var z := Crc32PadLength(|payload|);
    assert (if cnt < 8 then 8 - cnt else 0) == z;
    PadRegisterZeros(crc, cnt);
    assert PadRegister(crc, cnt) == Crc32Over(crc, Zeros(z));
  }

  /**
   * Whatever the payload, the receivers accept it followed by its own FCS
   * (for CRC-16 this rests on the residue property of the CRC).
   */
  lemma FcsAccepted(payload: seq<bv8>, fcs16: bool)
    requires fcs16 ==> Crc16ZeroResidue()
    ensures CrcOk(fcs16, payload + Fcs(payload, fcs16))
  {
    var data := payload + Fcs(payload, fcs16);
    if fcs16 {
      Crc16AppendedResidue(payload);
    } else {
      assert data[..|data| - 4] == payload;
      assert data[|data| - 4..] == BigEndian32(Fcs32Register(payload));
      Word32BigEndian(Fcs32Register(payload));
    }
  }

  /** De-whitening the received PSDU gives back payload and FCS. */
  lemma PsduDewhitened(payload: seq<bv8>, fcs16: bool, dw: bool)
    ensures (if dw then Whiten(Psdu(payload, fcs16, dw)) else Psdu(payload, fcs16, dw))
      == payload + Fcs(payload, fcs16)
  {
    if dw {
      WhitenInvolution(payload + Fcs(payload, fcs16));
    }
  }

  /** The octets `generate_packet` puts in `phr_psdu_buf` for a payload type, FCS choice, whitening and requested length. */
  function TxFrame(payloadType: int, fcs16: bool, dw: bool, psduLen: int): (b: seq<bv8>)
    ensures |b| >= PHR_LENGTH
  {
    var n := PsduSize(payloadType, fcs16, psduLen);
    PhrPsdu(n, fcs16, dw, Payload(payloadType, n - FcsLength(fcs16)))
  }

  /** The header the transmitter puts in front of a PSDU of `psdu_size` octets announces exactly that length. */
  lemma PhrAnnouncesPsdu(payloadType: int, fcs16: bool, dw: bool, psduLen: int)
    requires payloadType in {PAYLOAD_TYPE_INCR_BYTE, PAYLOAD_TYPE_PN9, PAYLOAD_TYPE_CRC_TEST}
    requires psduLen <= aMaxPHYPacketSize
    ensures var b := TxFrame(payloadType, fcs16, dw, psduLen);
      var w := FromOctets(b[0], b[1]);
      FrameLength(w) == PsduSize(payloadType, fcs16, psduLen) == |b| - PHR_LENGTH &&
      Dw(w) == dw && Fcs16(w) == fcs16 && Reserved(w) == 0 && !Ms(w)
  {
    var n := PsduSize(payloadType, fcs16, psduLen);
    var payload := Payload(payloadType, n - FcsLength(fcs16));
    PayloadLength(payloadType, fcs16, psduLen);
    HeaderOctets(Make(n, dw, fcs16), Psdu(payload, fcs16, dw));
    MakeFieldsOfLength(n, dw, fcs16);
  }

  /** A length that fits the field is read back unchanged, with the flags. */
  lemma MakeFieldsOfLength(n: int, dw: bool, fcs16: bool)
    requires 0 <= n <= aMaxPHYPacketSize
    ensures var w := Make(n, dw, fcs16);
      FrameLength(w) == n && Dw(w) == dw && Fcs16(w) == fcs16 && Reserved(w) == 0 && !Ms(w)
  {
    MakeReadBack(n, dw, fcs16);
  }

  /** The first two octets of PHR-then-PSDU read back as the header word. */
  lemma HeaderOctets(m: bv16, psdu: seq<bv8>)
    ensures var b := ToOctets(m) + psdu; FromOctets(b[0], b[1]) == m
  {
    OctetsRoundTrip(m);
  }

  // ---------------------------------------------------------------------
  // The item stream the access-code correlator hands to the deframers:
  // one unsigned char per bit, bit 0 the data bit, bit 1 the flag that
  // marks the first bit after the access code.
  // ---------------------------------------------------------------------

  function DataBit(item: bv8): bv8 { item & 1 }

  predicate SyncFlag(item: bv8) { item & 2 != 0 }

  /** The eight bits of an octet as items, most significant first, no flag. */
  function Bits8(x: bv8): (b: seq<bv8>)
    ensures |b| == 8
  {
    [(x >> 7) & 1, (x >> 6) & 1, (x >> 5) & 1, (x >> 4) & 1,
     (x >> 3) & 1, (x >> 2) & 1, (x >> 1) & 1, x & 1]
  }

  /** Octets sent one after the other, each most significant bit first. */
  function OctetItems(bytes: seq<bv8>): (items: seq<bv8>)
    ensures |items| == 8 * |bytes|
    decreases |bytes|
  {
    if |bytes| == 0 then [] else OctetItems(bytes[..|bytes| - 1]) + Bits8(bytes[|bytes| - 1])
  }

  lemma {:induction false} OctetItemsAppend(a: seq<bv8>, b: seq<bv8>)
    ensures OctetItems(a + b) == OctetItems(a) + OctetItems(b)
    decreases |b|
  {
    if |b| == 0 {
      assert a + b == a;
    } else {
      assert (a + b)[..|a + b| - 1] == a + b[..|b| - 1];
      OctetItemsAppend(a, b[..|b| - 1]);
    }
  }

  lemma OctetItemsOne(x: bv8)
    ensures OctetItems([x]) == Bits8(x)
  {
    assert [x][..0] == [];
  }

  /** A frame as the correlator delivers it: its bits, the first one flagged. */
  function FrameItems(bytes: seq<bv8>): (items: seq<bv8>)
    requires |bytes| > 0
    ensures |items| == 8 * |bytes|
    ensures SyncFlag(items[0]) && DataBit(items[0]) == (bytes[0] >> 7) & 1
    ensures items[1..] == OctetItems(bytes)[1..]
  {
    OctetItemsAppend([bytes[0]], bytes[1..]);
    OctetItemsOne(bytes[0]);
    assert [bytes[0]] + bytes[1..] == bytes;
    var items := OctetItems(bytes);
    [items[0] | 2] + items[1..]
  }
}
