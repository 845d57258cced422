/**
 * The transmitter's frame through the FEC deframer: the CRC verdict the
 * deframer reaches, the encoder input `generate_packet` builds, and the
 * record queued for a frame built by `generate_packet`.
 */
module FecLink {
  import opened Primitives
  import opened Phr
  import opened Frame
  import opened Nrnsc
  import opened Bits
  import opened FramerSinkNrnsc
  import opened FecReception
  import opened FecFrame
  import MrfskSource
  import Uncoded = FramerSinkMrfsk

  // ---------------------------------------------------------------------
  // The verdict
  // ---------------------------------------------------------------------

  /** From four PSDU octets on, the FEC deframer's CRC-32 verdict is the guarded one on the PSDU. */
  lemma FecCrc32OnPsdu(w: bv16, data: seq<bv8>)
    requires !Fcs16(w) && |data| >= 4
    ensures FecCrcOk(w, data) == Crc32Verdict(Crc32Over(INITIAL_CRC32, data[..|data| - 4]), data, |data|).1
  {
    var n := |data|;
    var buf := ToOctets(w) + data;
    assert Uncoded.Crc32Seen(n, n) == n - 4;
    FecVerdictOnPsdu(Crc32Over(INITIAL_CRC32, data[..n - 4]), buf, PHR_LENGTH + n);
    assert buf[PHR_LENGTH..PHR_LENGTH + n] == data;
  }

  /** The guarded verdict with the register run over all but the last four octets is Crc32Ok. */
  lemma Crc32VerdictOwn(data: seq<bv8>)
    requires |data| >= 4
    ensures Crc32Verdict(Crc32Over(INITIAL_CRC32, data[..|data| - 4]), data, |data|).1 == Crc32Ok(data)
  {
    var n := |data|;
    var crc := Crc32Over(INITIAL_CRC32, data[..n - 4]);
    RegisterPadded(crc, data[..n - 4], n);
    assert data[n - 4..n] == data[n - 4..];
    VerdictAgrees(crc, data, data);
  }

  /** Whenever the PSDU can hold its FCS, the FEC deframer's verdict is the receivers' CrcOk. */
  lemma FecCrcOkAgrees(w: bv16, data: seq<bv8>)
    requires Fcs16(w) || |data| >= 4
    ensures FecCrcOk(w, data) == CrcOk(Fcs16(w), data)
  {
    if !Fcs16(w) {
      FecCrc32OnPsdu(w, data);
      Crc32VerdictOwn(data);
    }
  }

  // ---------------------------------------------------------------------
  // The transmitter's frame
  // ---------------------------------------------------------------------

  /** The encoder input `generate_packet` builds for a frame begins with the frame's bits, each octet most significant bit first. */
  lemma FecBitsCarry(frame: seq<bv8>)
    ensures Carries(MrfskSource.FecBits(frame), frame)
  {
    var bits := MrfskSource.FecBits(frame);
    forall k | 0 <= k < 8 * |frame|
      ensures bits[k] == BufBit(frame, k)
    {
      MrfskSource.OctetBitsAt(frame, k / 8, k % 8);
      assert bits[k] == bits[..8 * |frame|][k];
    }
  }

  /** The frame the transmitter builds is its header `w` and a PSDU of the announced length, carried by its encoder input. */
  lemma TxFrameSent(payloadType: int, fcs16: bool, dw: bool, psduLen: int, w: bv16, psdu: seq<bv8>)
    requires payloadType in {PAYLOAD_TYPE_INCR_BYTE, PAYLOAD_TYPE_PN9, PAYLOAD_TYPE_CRC_TEST}
    requires psduLen <= aMaxPHYPacketSize
    requires var n := PsduSize(payloadType, fcs16, psduLen);
      w == Make(n, dw, fcs16) && psdu == Psdu(Payload(payloadType, n - FcsLength(fcs16)), fcs16, dw)
    ensures var bits := MrfskSource.FecBits(TxFrame(payloadType, fcs16, dw, psduLen));
      |psdu| == FrameLength(w) && Carries(bits, ToOctets(w) + psdu) && DeliveredAt(|psdu|) + 3 <= |bits|
    ensures Fcs16(w) == fcs16 && Dw(w) == dw
  {
    var frame := TxFrame(payloadType, fcs16, dw, psduLen);
    Uncoded.TransmittedPsdu(payloadType, fcs16, dw, psduLen);
    PhrAnnouncesPsdu(payloadType, fcs16, dw, psduLen);
    FecBitsCarry(frame);
  }

  /** The record for the transmitter's PSDU: de-whitened it is the payload and its FCS, which the verdict accepts. */
  lemma TxRecord(payloadType: int, fcs16: bool, dw: bool, psduLen: int, w: bv16, payload: seq<bv8>)
    requires fcs16 ==> Crc16ZeroResidue()
    requires Fcs16(w) == fcs16 && Dw(w) == dw
    ensures Uncoded.Dewhitened(w, Psdu(payload, fcs16, dw)) == payload + Fcs(payload, fcs16)
    ensures FecCrcOk(w, payload + Fcs(payload, fcs16))
  {
    PsduDewhitened(payload, fcs16, dw);
    FcsAccepted(payload, fcs16);
    FecCrcOkAgrees(w, payload + Fcs(payload, fcs16));
  }

  /**
   * The frame the transmitter builds, coded: when the blocks of `air` carry
   * the encoder output for its bits, tail and pad, the FEC deframer queues
   * exactly one type-1 record with the transmitter's header, the payload and
   * its FCS, and the CRC accepted, and then searches again.
   */
  lemma CodedLinkDeliversFrame(s: FecSink, payloadType: int, fcs16: bool, dw: bool, psduLen: int, air: seq<bv8>)
    requires Inv(s) && s.state == SyncSearch
    requires payloadType in {PAYLOAD_TYPE_INCR_BYTE, PAYLOAD_TYPE_PN9, PAYLOAD_TYPE_CRC_TEST}
    requires psduLen <= aMaxPHYPacketSize && (fcs16 ==> Crc16ZeroResidue())
    requires var bits := MrfskSource.FecBits(TxFrame(payloadType, fcs16, dw, psduLen));
      OnAir(air, bits, 0) && 4 * |air| == |bits|
    ensures var n := PsduSize(payloadType, fcs16, psduLen);
      var payload := Payload(payloadType, n - FcsLength(fcs16));
      var r := Run(s, FrameItems(air));
      r.state == SyncSearch && r.queue == s.queue + [Message(1, Make(n, dw, fcs16), true, payload + Fcs(payload, fcs16))]
  {
    var n := PsduSize(payloadType, fcs16, psduLen);
    var payload := Payload(payloadType, n - FcsLength(fcs16));
    var psdu := Psdu(payload, fcs16, dw);
    var w := Make(n, dw, fcs16);
    var bits := MrfskSource.FecBits(TxFrame(payloadType, fcs16, dw, psduLen));
    TxFrameSent(payloadType, fcs16, dw, psduLen, w, psdu);
    ReceiveCodedFrame(s, w, psdu, bits, air);
    TxRecord(payloadType, fcs16, dw, psduLen, w, payload);
  }

  // ---------------------------------------------------------------------
  // The transmitter's air
  // ---------------------------------------------------------------------

  /** The first two symbols packed into octet `i` of a block word are its symbols 4`i` and 4`i` + 1. */
  lemma OctetInWordHigh(o: seq<bv8>, i: nat, a: bv8, b: bv8, c: bv8, d: bv8)
    requires |o| == 4 && i < 4 && a < 4 && b < 4 && c < 4 && d < 4
    requires o[i] == MrfskSource.PackByte(a, b, c, d)
    ensures Sym(Word32(o), 4 * i) == a && Sym(Word32(o), 4 * i + 1) == b
  {
    SymIsField(Word32(o));
  }

  /** The last two symbols packed into octet `i` of a block word are its symbols 4`i` + 2 and 4`i` + 3. */
  lemma OctetInWordLow(o: seq<bv8>, i: nat, a: bv8, b: bv8, c: bv8, d: bv8)
    requires |o| == 4 && i < 4 && a < 4 && b < 4 && c < 4 && d < 4
    requires o[i] == MrfskSource.PackByte(a, b, c, d)
    ensures Sym(Word32(o), 4 * i + 2) == c && Sym(Word32(o), 4 * i + 3) == d
  {
    SymIsField(Word32(o));
  }

  /** Octet `m` of block `q` of the code: its four symbols read back from the block word. */
  lemma PackedOctet(syms: seq<bv8>, q: nat, m: nat)
    requires 16 * q + 16 <= |syms| && m < 4 && forall j :: 0 <= j < |syms| ==> syms[j] < 4
    ensures 4 * q + 4 <= |MrfskSource.CodeBytes(syms)|
    ensures var w := Word32(MrfskSource.CodeBytes(syms)[4 * q..4 * q + 4]);
      var n := 16 * q + 4 * m;
      Sym(w, 4 * m) == syms[n] && Sym(w, 4 * m + 1) == syms[n + 1] &&
      Sym(w, 4 * m + 2) == syms[n + 2] && Sym(w, 4 * m + 3) == syms[n + 3]
  {
    var o := MrfskSource.CodeBytes(syms)[4 * q..4 * q + 4];
    var n := 16 * q + 4 * m;
    MrfskSource.CodeBytesAt(syms, 4 * q + m);
    OctetInWordHigh(o, m, syms[n], syms[n + 1], syms[n + 2], syms[n + 3]);
    OctetInWordLow(o, m, syms[n], syms[n + 1], syms[n + 2], syms[n + 3]);
  }

  /** Symbol `j` of block `q`, read back from the block word. */
  lemma PackedSym(syms: seq<bv8>, q: nat, j: nat)
    requires 16 * q + 16 <= |syms| && j < BLOCK_SYMBOLS && forall j :: 0 <= j < |syms| ==> syms[j] < 4
    ensures 4 * q + 4 <= |MrfskSource.CodeBytes(syms)|
    ensures Sym(Word32(MrfskSource.CodeBytes(syms)[4 * q..4 * q + 4]), j) == syms[16 * q + j]
  {
    var m := j / 4;
    PackedOctet(syms, q, m);
    if j % 4 == 0 {
      assert j == 4 * m;
    } else if j % 4 == 1 {
      assert j == 4 * m + 1;
    } else if j % 4 == 2 {
      assert j == 4 * m + 2;
    } else {
      assert j == 4 * m + 3;
    }
  }

  /** A block of four code octets, read as a word, gives back the sixteen symbols packed into it. */
  lemma PackedBlock(syms: seq<bv8>, q: nat)
    requires 16 * q + 16 <= |syms| && forall j :: 0 <= j < |syms| ==> syms[j] < 4
    ensures 4 * q + 4 <= |MrfskSource.CodeBytes(syms)|
    ensures BlockSymbols(Word32(MrfskSource.CodeBytes(syms)[4 * q..4 * q + 4])) == syms[16 * q..16 * q + 16]
  {
    var w := Word32(MrfskSource.CodeBytes(syms)[4 * q..4 * q + 4]);
    forall j | 0 <= j < BLOCK_SYMBOLS
      ensures BlockSymbols(w)[j] == syms[16 * q..16 * q + 16][j]
    {
      PackedSym(syms, q, j);
    }
  }

  /** Every symbol of the encoder output is two bits. */
  lemma EncodeBelow4(bits: seq<bool>)
    ensures forall j :: 0 <= j < |bits| ==> Encode(bits)[j] < 4
  {
    forall j | 0 <= j < |bits|
      ensures Encode(bits)[j] < 4
    {
      MrfskSource.SymbolBelow4(bits, j);
    }
  }

  /**
   * Block `i` of the interleaved code, de-interleaved by the receiver, carries
   * the encoder output for symbols 16`i` .. 16`i` + 15, given that the receive
   * permutation undoes the transmit one.
   */
  lemma AirBlockAt(bits: seq<bool>, nb: nat, i: nat)
    requires InterleavePaired() && |bits| == 16 * nb && i < nb
    ensures var air := MrfskSource.Interleaved(MrfskSource.CodeBytes(Encode(bits)), nb);
      BlockAt(InterleaveU32(Word32(air[4 * i..4 * i + 4])), bits, 16 * i)
  {
    var syms := Encode(bits);
    var code := MrfskSource.CodeBytes(syms);
    var o := code[4 * i..4 * i + 4];
    EncodeBelow4(bits);
    PackedBlock(syms, i);
    MrfskSource.InterleavedBlock(code, nb, i);
    MrfskSource.InterleaveBlockWord(o);
    assert InterleaveU32(Interleave(Word32(o))) == Word32(o);
  }

  /** The interleaved code from block `i` on is on the air for the encoder input from symbol 16`i` on. */
  lemma {:induction false} AirFrom(bits: seq<bool>, nb: nat, i: nat)
    requires InterleavePaired() && |bits| == 16 * nb && i <= nb
    ensures var air := MrfskSource.Interleaved(MrfskSource.CodeBytes(Encode(bits)), nb);
      OnAir(air[4 * i..], bits, 16 * i)
    decreases nb - i
  {
    var air := MrfskSource.Interleaved(MrfskSource.CodeBytes(Encode(bits)), nb);
    if i < nb {
      AirBlockAt(bits, nb, i);
      AirFrom(bits, nb, i + 1);
      assert air[4 * i..][..4] == air[4 * i..4 * i + 4];
      assert air[4 * i..][4..] == air[4 * (i + 1)..];
    }
  }

  /**
   * When the coded frame fits `rf_buf`, the coded part of the packet
   * `generate_packet` writes is on the air for the frame's encoder input,
   * given that the receive permutation undoes the transmit one.
   */
  lemma FecAirOnAir(frame: seq<bv8>, room: int)
    requires InterleavePaired() && 4 * (|frame| / 2 + 1) < room
    ensures var air := MrfskSource.FecAir(frame, room);
      OnAir(air, MrfskSource.FecBits(frame), 0) && 4 * |air| == |MrfskSource.FecBits(frame)|
  {
    MrfskSource.FecBitsBlocks(frame);
    var nb := |frame| / 2 + 1;
    AirFrom(MrfskSource.FecBits(frame), nb, 0);
    var air := MrfskSource.Interleaved(MrfskSource.CodeBytes(Encode(MrfskSource.FecBits(frame))), nb);
    assert air[4 * 0..] == air;
  }

  /**
   * End to end with FEC: the coded part of the packet the transmitter writes
   * for its frame, when it fits `rf_buf`, taken from SYNC_SEARCH by the FEC
   * deframer, queues exactly one type-1 record with the transmitter's header,
   * the payload and its FCS, and the CRC accepted, and the deframer searches
   * again.
   */
  lemma CodedPacketDelivered(s: FecSink, payloadType: int, fcs16: bool, dw: bool, psduLen: int, room: int)
    requires Inv(s) && s.state == SyncSearch && InterleavePaired()
    requires payloadType in {PAYLOAD_TYPE_INCR_BYTE, PAYLOAD_TYPE_PN9, PAYLOAD_TYPE_CRC_TEST}
    requires psduLen <= aMaxPHYPacketSize && (fcs16 ==> Crc16ZeroResidue())
    requires 4 * (|TxFrame(payloadType, fcs16, dw, psduLen)| / 2 + 1) < room
    ensures var n := PsduSize(payloadType, fcs16, psduLen);
      var payload := Payload(payloadType, n - FcsLength(fcs16));
      var r := Run(s, FrameItems(MrfskSource.FecAir(TxFrame(payloadType, fcs16, dw, psduLen), room)));
      r.state == SyncSearch && r.queue == s.queue + [Message(1, Make(n, dw, fcs16), true, payload + Fcs(payload, fcs16))]
  {
    var frame := TxFrame(payloadType, fcs16, dw, psduLen);
    FecAirOnAir(frame, room);
    CodedLinkDeliversFrame(s, payloadType, fcs16, dw, psduLen, MrfskSource.FecAir(frame, room));
  }
}
