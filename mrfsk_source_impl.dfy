/**
 * The transmitter block of lib/mrfsk_source_impl.cc as the code runs it: the
 * constructor's settings, the fields `work`, `generate_packet` and
 * `encode_bit` update in place, the fixed `rf_buf` and the local
 * `phr_psdu_buf` as arrays. Every method is proved against the functions of
 * MrfskSourceBlock (Step, Produce, Load, Build) and MrfskSource (EncodeBitF,
 * HoldsAir), whose properties are proved there.
 */
module MrfskSourceImpl {
  import opened Primitives
  import opened Phr
  import opened Frame
  import opened Nrnsc
  import opened Bits
  import opened MrfskSource
  import opened MrfskSourceBlock
  import opened Folds

  class SourceBlock {
    const preambleBytes: int
    const nrnsc: bool
    const dwEn: bool
    const fcsType: bool
    const psduSize: int
    const delayTotal: int
    const payloadContentType: int
    const rfBuf: array<bv8>
    /** The packet every call of `generate_packet` builds (Build of the settings). */
    ghost const pkt: Packet

    var state: TxState
    var delayCountdown: int
    var pktCountdown: int
    var phr: bv16
    var lfsr: bv16
    var crc16: bv16
    var crc32: bv32
    var m2: bool
    var m1: bool
    var m0: bool
    var bi: bool
    var rfBufLen: int
    var rfBufSent: int
    var rfBp: bv8
    var tags: seq<Tag>

    /** The settings the constructor fixed. */
    function Cfg(): Settings
    {
      Settings(preambleBytes, nrnsc, dwEn, fcsType, psduSize, delayTotal, payloadContentType)
    }

    /** The fields as a value. */
    function Snapshot(): Fields
      reads this, rfBuf
    {
      Fields(state, delayCountdown, pktCountdown, phr, lfsr, crc16, crc32, Encoder(m2, m1, m0, bi),
             rfBuf[..], rfBufLen, rfBufSent, rfBp, tags)
    }

    /** What `encode_bit` works on. */
    function CoderOf(): Coder
      reads this, rfBuf
    {
      Coder(Encoder(m2, m1, m0, bi), rfBuf[..], rfBufLen, rfBp)
    }

    /**
     * The packet the constructor recorded is the one the settings describe
     * (stated for every settings value equal to these, so that Build is only
     * unfolded where a proof names it).
     */
    ghost predicate Built()
    {
      forall c {:trigger Build(c)} :: Fits(c) && c == Cfg() ==> pkt == Build(c)
    }

    ghost predicate Valid()
      reads this, rfBuf
    {
      rfBuf.Length == RF_BUF_SIZE && Fits(Cfg()) && PacketFits(pkt) && Inv(Snapshot())
    }

    /**
     * The constructor: the settings as given, `psdu_size` fixed for the CRC
     * test frame and otherwise raised to hold the FCS; 50 start-up octets are
     * due. The fields the code leaves unset start at zero here.
     */
    constructor (numIterations: int, preambleSize: int, fecEn: bool, dw: bool, crcType16: bool,
                 payloadType: int, psduLen: int, delayBytes: int)
      requires Fits(Settings(preambleSize, fecEn, dw, crcType16, PsduSize(payloadType, crcType16, psduLen),
                             delayBytes, payloadType))
      ensures Valid() && fresh(rfBuf)
      ensures Cfg() == Settings(preambleSize, fecEn, dw, crcType16, PsduSize(payloadType, crcType16, psduLen),
                                delayBytes, payloadType)
      ensures Built()
      ensures state == InitDelay && delayCountdown == STARTUP_OCTETS && pktCountdown == numIterations && tags == []
    {
      preambleBytes := preambleSize;
      nrnsc := fecEn;
      dwEn := dw;
      fcsType := crcType16;
      delayTotal := delayBytes;
      pktCountdown := numIterations;
      payloadContentType := payloadType;
      var size: int;
      if payloadType == PAYLOAD_TYPE_CRC_TEST {
        size := if crcType16 then 5 else 7;
      } else {
        size := psduLen;
        if crcType16 {
          if size < 2 {
            size := 2;
          }
        } else {
          if size < 4 {
            size := 4;
          }
        }
      }
      psduSize := size;
      state := InitDelay;
      delayCountdown := 50;
      phr, lfsr, crc16, crc32 := 0, 0, 0, 0;
      m2, m1, m0, bi := false, false, false, false;
      rfBuf := new bv8[RF_BUF_SIZE];
      rfBufLen, rfBufSent, rfBp := 0, 0, 0x80;
      tags := [];
      pkt := Build(Settings(preambleSize, fecEn, dw, crcType16, size, delayBytes, payloadType));
    }

    /** `pa_enable`: a `pa_ramp` tag at absolute position `nitemsWritten` + `sent`. */
    method PaEnable(en: bool, nitemsWritten: int, sent: int)
      modifies this`tags
      ensures tags == old(tags) + [Tag(nitemsWritten + sent, en)]
    {
      tags := tags + [Tag(nitemsWritten + sent, en)];
    }

    /**
     * `encode_bit`: shift the data bit into the registers, then write the two
     * code bits complemented under `rf_bp`; -1 when an octet closes at the
     * end of `rf_buf`.
     */
    method EncodeBit(bit: bool) returns (r: int)
      requires rfBuf.Length == RF_BUF_SIZE && Writable(CoderOf())
      modifies this`m2, this`m1, this`m0, this`bi, this`rfBufLen, this`rfBp, rfBuf
      ensures r == 0 || r == -1
      ensures CoderOf() == NextCoder(old(CoderOf()), bit) && (r == 0) == EncodeBitF(old(CoderOf()), bit).1
    {
      ghost var c0 := CoderOf();
      m2 := m1;
      m1 := m0;
      m0 := bi;
      bi := bit;
      var e := Encoder(m2, m1, m0, bi);
      PutBit(!Ui1(e));
      EncodeBitSteps(c0, bit);
      if rfBufLen >= RF_BUF_SIZE {
        return -1;
      }
      PutBit(!Ui0(e));
      if rfBufLen >= RF_BUF_SIZE {
        return -1;
      }
      return 0;
    }

    /**
     * One code bit of `encode_bit`: the bit under `rf_bp` cleared (`ui` set)
     * or set, the mask moved on, a spent mask restarting on the next octet.
     */
    method PutBit(v: bool)
      requires rfBuf.Length == RF_BUF_SIZE && Writable(CoderOf())
      modifies this`rfBufLen, this`rfBp, rfBuf
      ensures CoderOf() == PutCodeBit(old(CoderOf()), v)
    {
      ghost var c := CoderOf();
      rfBuf[rfBufLen] := SetBit(rfBuf[rfBufLen], rfBp, v);
      assert rfBuf[..] == c.buf[c.len := SetBit(c.buf[c.len], c.bp, v)];
      rfBp := rfBp >> 1;
      if rfBp == 0 {
        rfBp := 0x80;
        rfBufLen := rfBufLen + 1;
      }
    }

    /**
     * `work`: up to `noutputItems` octets into `out` (the scheduler's output
     * buffer), one item per step of the state machine. It returns the count
     * of items produced, or -1 once every packet has been sent; the fields
     * and the octets are those Produce gives, every packet being the one
     * Build describes.
     */
    method Work(noutputItems: int, out: array<bv8>, nitemsWritten: int) returns (ret: int)
      requires Valid() && Built() && out != rfBuf && noutputItems <= out.Length
      modifies this, rfBuf, out
      ensures Valid()
      ensures var r := Produce(Cfg(), pkt, old(Snapshot()), nitemsWritten, if noutputItems < 0 then 0 else noutputItems);
        Snapshot() == r.0 && ret == r.2 && |r.1| <= out.Length && out[..|r.1|] == r.1
    {
      ghost var n: nat := if noutputItems < 0 then 0 else noutputItems;
      ghost var call := Produce(Cfg(), pkt, Snapshot(), nitemsWritten, n);
      ghost var done: seq<bv8> := [];
      ResumeStart(Cfg(), pkt, Snapshot(), nitemsWritten, n);
      var i := 0;
      var sent := 0;
      while i < noutputItems
        decreases noutputItems - i
        invariant Valid() && 0 <= i <= n && sent == i && |done| == i && out[..i] == done
        invariant call == Resume(Cfg(), pkt, Snapshot(), nitemsWritten + i, n - i, done)
      {
        var e := ServeItem(out, i, nitemsWritten, sent, n, done);
        match e {
        case Emit(b) =>
          done := done + [b];
        case Finish =>
          assert call == (Snapshot(), done, i);
          return sent;
        case Abort =>
          assert call == (Snapshot(), done, -1);
          return -1;
        }
        sent := sent + 1;
        i := i + 1;
      }
      ResumeNone(Cfg(), pkt, Snapshot(), nitemsWritten + i, done);
      assert call == (Snapshot(), done, i);
      return sent;
    }

    /**
     * One pass of the loop in `work` with its output octet: item `i` of the
     * call, `done` the octets written before it. What is left of the call
     * after the item is what was left before it, less the item.
     */
    method ServeItem(out: array<bv8>, i: int, nitemsWritten: int, sent: int, ghost n: nat, ghost done: seq<bv8>)
      returns (e: Emission<bv8>)
      requires Valid() && Built() && out != rfBuf && 0 <= i < n && n <= out.Length && sent == i && out[..i] == done
      modifies this, rfBuf, out
      ensures Valid()
      ensures e.Emit? ==>
        (out[..i + 1] == done + [e.o] &&
         Resume(Cfg(), pkt, old(Snapshot()), nitemsWritten + i, n - i, done) ==
         Resume(Cfg(), pkt, Snapshot(), nitemsWritten + i + 1, n - i - 1, done + [e.o]))
      ensures !e.Emit? ==>
        (out[..i] == done &&
         Resume(Cfg(), pkt, old(Snapshot()), nitemsWritten + i, n - i, done) ==
         (Snapshot(), done, if e.Finish? then |done| else -1))
    {
      ghost var before := Snapshot();
      e := WorkItem(nitemsWritten, sent);
      ResumeItem(Cfg(), pkt, before, nitemsWritten + i, n - i, done, Snapshot(), e);
      Deliver(out, i, e);
    }

    /** The item's octet goes to `out`; a finished call writes a zero it does not count. */
    method Deliver(out: array<bv8>, i: int, e: Emission<bv8>)
      requires 0 <= i < out.Length
      modifies out
      ensures e.Emit? ==> out[..i + 1] == old(out[..i]) + [e.o]
      ensures !e.Emit? ==> out[..i] == old(out[..i])
    {
      match e {
      case Emit(b) =>
        out[i] := b;
      case Finish =>
        out[i] := 0;
      case Abort =>
      }
    }

    /**
     * One pass of the loop in `work`, at output item `sent` of a call whose
     * first item has absolute position `nitemsWritten`: the fields change as
     * Step says, and so does what the item is.
     */
    method WorkItem(nitemsWritten: int, sent: int) returns (e: Emission<bv8>)
      requires Valid() && Built()
      modifies this, rfBuf
      ensures Valid()
      ensures (Snapshot(), e) == Step(Cfg(), pkt, old(Snapshot()), nitemsWritten + sent)
    {
      StepKeepsInv(Cfg(), pkt);
      match state
      case InitDelay =>
        e := StartupItem(nitemsWritten, sent);
      case GeneratePacket =>
        e := PacketItem(nitemsWritten, sent);
      case SendPacket =>
        e := SendItem(nitemsWritten, sent);
      case PadPacket =>
        e := GapItem(nitemsWritten, sent);
      case DelayStart =>
        e := GapItem(nitemsWritten, sent);
      case Delay =>
        e := GapItem(nitemsWritten, sent);
      case Done =>
        e := Abort;
      case Pn9Lfsr =>
        e := Pn9Item(nitemsWritten, sent);
    }

    /** Sending the packet: the next octet of `rf_buf`; after the last one the zero padding is due. */
    method SendItem(nitemsWritten: int, sent: int) returns (e: Emission<bv8>)
      requires Valid() && state == SendPacket
      modifies this`rfBufSent, this`state
      ensures (Snapshot(), e) == Step(Cfg(), pkt, old(Snapshot()), nitemsWritten + sent)
    {
      e := Emit(rfBuf[rfBufSent]);
      rfBufSent := rfBufSent + 1;
      if rfBufSent >= rfBufLen {
        state := PadPacket;
      }
    }

    /** The PN9-forever payload: the next keystream octet, for ever. */
    method Pn9Item(nitemsWritten: int, sent: int) returns (e: Emission<bv8>)
      requires Valid() && state == Pn9Lfsr
      modifies this`lfsr
      ensures (Snapshot(), e) == Step(Cfg(), pkt, old(Snapshot()), nitemsWritten + sent)
    {
      var (b, l) := GetPn9Byte(lfsr);
      lfsr := l;
      e := Emit(b);
    }

    /** The start-up state: a filler octet, or with the PN9-forever payload the first keystream octet, tagged "amplifier on". */
    method StartupItem(nitemsWritten: int, sent: int) returns (e: Emission<bv8>)
      requires Valid() && state == InitDelay
      modifies this`lfsr, this`state, this`delayCountdown, this`tags
      ensures (Snapshot(), e) == Step(Cfg(), pkt, old(Snapshot()), nitemsWritten + sent)
    {
      if payloadContentType == PAYLOAD_PN9_FOREVER {
        lfsr := PN9_SEED;
        var (b, l) := GetPn9Byte(lfsr);
        lfsr := l;
        e := Emit(b);
        state := Pn9Lfsr;
        PaEnable(true, nitemsWritten, sent);
      } else {
        e := Emit(STARTUP_FILL);
        delayCountdown := delayCountdown - 1;
        if delayCountdown == 0 {
          state := GeneratePacket;
        }
      }
    }

    /** The item that builds the packet and sends its first octet, tagged "amplifier on". */
    method PacketItem(nitemsWritten: int, sent: int) returns (e: Emission<bv8>)
      requires Valid() && Built() && state == GeneratePacket
      modifies this, rfBuf
      ensures (Snapshot(), e) == Step(Cfg(), pkt, old(Snapshot()), nitemsWritten + sent)
    {
      Generate();
      rfBufSent := 0;
      e := Emit(rfBuf[rfBufSent]);
      rfBufSent := rfBufSent + 1;
      PaEnable(true, nitemsWritten, sent);
      state := SendPacket;
    }

    /**
     * The states after a packet: the pad octet; the first zero of the gap,
     * tagged "amplifier off", which starts the countdown; the zeros of the
     * gap, the last of which makes the next packet due or, after the last
     * packet, ends the call without being counted.
     */
    method GapItem(nitemsWritten: int, sent: int) returns (e: Emission<bv8>)
      requires Valid() && (state == PadPacket || state == DelayStart || state == Delay)
      modifies this`state, this`delayCountdown, this`pktCountdown, this`tags
      ensures (Snapshot(), e) == Step(Cfg(), pkt, old(Snapshot()), nitemsWritten + sent)
    {
      if state == PadPacket {
        e := Emit(0);
        state := DelayStart;
      } else if state == DelayStart {
        e := Emit(0);
        PaEnable(false, nitemsWritten, sent);
        delayCountdown := delayTotal;
        state := Delay;
      } else {
        e := Emit(0);
        delayCountdown := delayCountdown - 1;
        if delayCountdown <= 0 {
          pktCountdown := pktCountdown - 1;
          if pktCountdown == 0 {
            state := Done;
            e := Finish;
          } else {
            state := GeneratePacket;
          }
        }
      }
    }

    /** The preamble octets and the SFD from the start of `rf_buf`; `rf_buf_len` is left just after them. */
    method WriteHeader()
      requires rfBuf.Length == RF_BUF_SIZE && HeaderLength(preambleBytes) < RF_BUF_SIZE
      modifies this`rfBufLen, rfBuf
      ensures rfBufLen == HeaderLength(preambleBytes)
      ensures rfBuf[..] == Header(preambleBytes, nrnsc) + old(rfBuf[..])[rfBufLen..]
    {
      WritePreamble();
      ghost var b1 := rfBuf[..];
      var sfd: bv8 := if nrnsc then 0x6F else 0x90;
      HeaderPut(old(rfBuf[..]), b1, preambleBytes, nrnsc, sfd, 0x4E);
      rfBuf[rfBufLen] := sfd;
      rfBuf[rfBufLen + 1] := 0x4E;
      rfBufLen := rfBufLen + 2;
    }

    /** `preamble_bytes` octets 0x55 from the start of `rf_buf`. */
    method WritePreamble()
      requires rfBuf.Length == RF_BUF_SIZE && HeaderLength(preambleBytes) <= RF_BUF_SIZE
      modifies this`rfBufLen, rfBuf
      ensures rfBufLen == HeaderLength(preambleBytes) - 2
      ensures rfBuf[..] == Preamble(preambleBytes) + old(rfBuf[..])[rfBufLen..]
    {
      ghost var b0 := rfBuf[..];
      var i := 0;
      while i < preambleBytes
        invariant 0 <= i <= HeaderLength(preambleBytes) - 2
        invariant rfBuf[..] == Preamble(i) + b0[i..]
      {
        PreambleNext(b0, i);
        rfBuf[i] := PREAMBLE_OCTET;
        i := i + 1;
      }
      rfBufLen := i;
    }

    /**
     * The payload after the two PHR octets of `frame`: the CRC test octets,
     * `count` PN9 octets from the seed, or `count` bit-reversed octets of the
     * 8-bit counter; an unknown type writes nothing.
     */
    method WritePayload(frame: array<bv8>, count: int) returns (idx: int)
      requires frame.Length == PHR_PSDU_BUF_SIZE && 0 <= count <= PHR_PSDU_BUF_SIZE - PHR_LENGTH
      modifies this`lfsr, frame
      ensures idx == |Payload(payloadContentType, count)| && PHR_LENGTH + idx <= frame.Length
      ensures frame[..PHR_LENGTH + idx] == old(frame[..PHR_LENGTH]) + Payload(payloadContentType, count)
      ensures lfsr == if payloadContentType == PAYLOAD_TYPE_PN9 then Pn9After(PN9_SEED, count) else old(lfsr)
    {
      idx := 0;
      if payloadContentType == PAYLOAD_TYPE_CRC_TEST {
        frame[2], frame[3], frame[4] := 0x40, 0x00, 0x56;
        idx := 3;
        assert frame[..5] == old(frame[..2]) + CRC_TEST_PAYLOAD;
      } else if payloadContentType == PAYLOAD_TYPE_PN9 {
        idx := Pn9Payload(frame, count);
      } else if payloadContentType == PAYLOAD_TYPE_INCR_BYTE {
        idx := IncrPayloadFill(frame, count);
      } else {
        assert frame[..2] + [] == frame[..2];
      }
    }

    /** The PN9 payload: `lfsr` reset to the seed, then one `get_pn9_byte` per octet. */
    method Pn9Payload(frame: array<bv8>, count: int) returns (idx: int)
      requires frame.Length == PHR_PSDU_BUF_SIZE && 0 <= count <= PHR_PSDU_BUF_SIZE - PHR_LENGTH
      modifies this`lfsr, frame
      ensures idx == count
      ensures frame[..PHR_LENGTH + idx] == old(frame[..PHR_LENGTH]) + Pn9Keystream(PN9_SEED, count)
      ensures lfsr == Pn9After(PN9_SEED, count)
    {
      lfsr := PN9_SEED;
      idx := 0;
      while idx < count
        invariant 0 <= idx <= count
        invariant frame[..PHR_LENGTH + idx] == old(frame[..PHR_LENGTH]) + Pn9Keystream(PN9_SEED, idx)
        invariant lfsr == Pn9After(PN9_SEED, idx)
      {
        Pn9KeystreamSnoc(PN9_SEED, idx);
        var (b, l) := GetPn9Byte(lfsr);
        lfsr := l;
        frame[PHR_LENGTH + idx] := b;
        idx := idx + 1;
      }
    }

    /** The incrementing payload: the counter `payload_incr_octet`, 8 bits wide, bit-reversed into each octet. */
    method IncrPayloadFill(frame: array<bv8>, count: int) returns (idx: int)
      requires frame.Length == PHR_PSDU_BUF_SIZE && 0 <= count <= PHR_PSDU_BUF_SIZE - PHR_LENGTH
      modifies frame
      ensures idx == count
      ensures frame[..PHR_LENGTH + idx] == old(frame[..PHR_LENGTH]) + IncrPayload(count)
    {
      var octet: bv8 := 0;
      idx := 0;
      while idx < count
        invariant 0 <= idx <= count && octet == IncrCounter(idx)
        invariant frame[..PHR_LENGTH + idx] == old(frame[..PHR_LENGTH]) + IncrPayload(idx)
      {
        frame[PHR_LENGTH + idx] := ReverseOctet(octet);
        octet := octet + 1;
        idx := idx + 1;
      }
    }

    /** The CRC-16 over the `idx` payload octets, appended high octet first. */
    method AppendCrc16(frame: array<bv8>, idx: int) returns (end: int)
      requires frame.Length == PHR_PSDU_BUF_SIZE && 0 <= idx && PHR_LENGTH + idx + 2 <= frame.Length
      modifies this`crc16, frame
      ensures end == idx + FcsLength(true)
      ensures var payload := old(frame[PHR_LENGTH..PHR_LENGTH + idx]);
        frame[..PHR_LENGTH + end] == old(frame[..PHR_LENGTH + idx]) + Fcs(payload, true) &&
        crc16 == Crc16Over(INITIAL_CRC16, payload)
    {
      crc16 := INITIAL_CRC16;
      crc16 := Crc16Over(crc16, frame[PHR_LENGTH..PHR_LENGTH + idx]);
      frame[PHR_LENGTH + idx] := HighByte(crc16);
      frame[PHR_LENGTH + idx + 1] := LowByte(crc16);
      end := idx + 2;
      assert frame[..PHR_LENGTH + end] == old(frame[..PHR_LENGTH + idx]) + [HighByte(crc16), LowByte(crc16)];
    }

    /**
     * The CRC-32 over the `idx` payload octets and appended most significant
     * octet first.
     */
    method AppendCrc32(frame: array<bv8>, idx: int) returns (end: int)
      requires frame.Length == PHR_PSDU_BUF_SIZE && 0 <= idx && PHR_LENGTH + idx + 4 <= frame.Length
      modifies this`crc32, frame
      ensures end == idx + FcsLength(false)
      ensures var payload := old(frame[PHR_LENGTH..PHR_LENGTH + idx]);
        frame[..PHR_LENGTH + end] == old(frame[..PHR_LENGTH + idx]) + Fcs(payload, false) &&
        crc32 == Fcs32Register(payload)
    {
      RunCrc32(frame, idx);
      ghost var f0 := frame[..];
      var at := PHR_LENGTH + idx;
      var e := BigEndian32(crc32);
      frame[at], frame[at + 1], frame[at + 2], frame[at + 3] := e[0], e[1], e[2], e[3];
      end := idx + 4;
      assert frame[..] == f0[at := e[0]][at + 1 := e[1]][at + 2 := e[2]][at + 3 := e[3]];
      PutWord(f0, at, crc32);
      assert frame[..at + 4] == f0[..at] + e;
    }

    /** The CRC-32 register over the `idx` payload octets, run on over zero octets up to four in all, then complemented. */
    method RunCrc32(frame: array<bv8>, idx: int)
      requires 0 <= idx && PHR_LENGTH + idx <= frame.Length
      modifies this`crc32
      ensures crc32 == Fcs32Register(frame[PHR_LENGTH..PHR_LENGTH + idx])
    {
      crc32 := INITIAL_CRC32;
      crc32 := Crc32Over(crc32, frame[PHR_LENGTH..PHR_LENGTH + idx]);
      PadCrc32(idx);
      crc32 := !crc32;
    }

    /** The loop that runs the CRC-32 over one zero octet `z` at a time until four octets in all are covered. */
    method PadCrc32(idx: int)
      requires 0 <= idx
      modifies this`crc32
      ensures crc32 == Crc32Over(old(crc32), Zeros(Crc32PadLength(idx)))
    {
      var z: bv8 := 0;
      var i := idx;
      while i < 4
        invariant idx <= i && (i == idx || i <= 4)
        invariant crc32 == Crc32Over(old(crc32), Zeros(i - idx))
      {
        Crc32OverZerosSnoc(old(crc32), i - idx);
        crc32 := UpdateCrc32(crc32, z);
        i := i + 1;
      }
    }

    /** Data whitening: the `len` PSDU octets XORed with the PN9 keystream, `lfsr` reset to the seed first. */
    method WhitenPsdu(frame: array<bv8>, len: int)
      requires frame.Length == PHR_PSDU_BUF_SIZE && 0 <= len && PHR_LENGTH + len <= frame.Length
      modifies this`lfsr, frame
      ensures frame[..PHR_LENGTH + len] == old(frame[..PHR_LENGTH]) + Whiten(old(frame[PHR_LENGTH..PHR_LENGTH + len]))
      ensures lfsr == Pn9After(PN9_SEED, len)
    {
      ghost var d := frame[PHR_LENGTH..PHR_LENGTH + len];
      ghost var w := Whiten(d);
      lfsr := PN9_SEED;
      var i := 0;
      while i < len
        invariant 0 <= i <= len && lfsr == Pn9After(PN9_SEED, i)
        invariant frame[..PHR_LENGTH] == old(frame[..PHR_LENGTH])
        invariant forall j :: 0 <= j < i ==> frame[PHR_LENGTH + j] == w[j]
        invariant forall j :: i <= j < len ==> frame[PHR_LENGTH + j] == d[j]
      {
        Pn9KeystreamAt(PN9_SEED, len, i);
        Pn9KeystreamSnoc(PN9_SEED, i);
        var (b, l) := GetPn9Byte(lfsr);
        lfsr := l;
        frame[PHR_LENGTH + i] := frame[PHR_LENGTH + i] ^ b;
        i := i + 1;
      }
      assert frame[PHR_LENGTH..PHR_LENGTH + len] == w;
      assert frame[..PHR_LENGTH + len] == frame[..PHR_LENGTH] + frame[PHR_LENGTH..PHR_LENGTH + len];
    }

    /** `memcpy` of the `total` frame octets to `rf_buf` at `rf_buf_len`, which moves past them. */
    method CopyFrame(frame: array<bv8>, total: int)
      requires rfBuf.Length == RF_BUF_SIZE && frame != rfBuf && 0 <= total <= frame.Length
      requires 0 <= rfBufLen && rfBufLen + total <= RF_BUF_SIZE
      modifies this`rfBufLen, rfBuf
      ensures rfBufLen == old(rfBufLen) + total
      ensures rfBuf[..] == old(rfBuf[..rfBufLen]) + frame[..total] + old(rfBuf[rfBufLen + total..])
    {
      forall k | 0 <= k < total {
        rfBuf[rfBufLen + k] := frame[k];
      }
      rfBufLen := rfBufLen + total;
    }

    /**
     * The coded branch of `generate_packet`: registers cleared, the frame's
     * bits most significant first through `encode_bit`, the last four octets
     * interleaved after every 32 code bits, then the tail and the pad and a
     * last interleave; a failing `encode_bit` ends it at once.
     */
    method EncodeFrame(frame: array<bv8>, total: int)
      requires rfBuf.Length == RF_BUF_SIZE && frame != rfBuf && 0 <= total <= frame.Length
      requires 0 <= rfBufLen < RF_BUF_SIZE
      modifies this`m2, this`m1, this`m0, this`bi, this`rfBufLen, this`rfBp, rfBuf
      ensures FecHeld(CoderOf(), old(rfBuf[..]), old(rfBufLen), frame[..total])
    {
      ghost var base := rfBuf[..];
      ghost var start := rfBufLen;
      ghost var data := frame[..total];
      ghost var bits := FecBits(data);
      FecBitsBlocks(data);
      ghost var code := CodeBytes(Encode(bits));
      m2, m1, m0, bi := false, false, false, false;
      rfBp := 0x80;
      EncodedStart(base, start, bits, code);
      var ok;
      ghost var q, k;
      ok, q, k := EncodeOctets(frame, total, base, start, data, bits, code);
      if !ok {
        return;
      }
      ok, q, k := EncodeTail(total, base, start, data, bits, code, q, k);
      if !ok {
        return;
      }
      CloseFrame(base, start, data, bits, code, q, k);
    }

    /** The last interleave, over the four octets the tail and the pad completed. */
    method CloseFrame(ghost base: seq<bv8>, ghost start: int, ghost data: seq<bv8>, ghost bits: seq<bool>, ghost code: seq<bv8>,
                      ghost q: nat, ghost k: nat)
      requires rfBuf.Length == RF_BUF_SIZE && bits == FecBits(data) && code == CodeBytes(Encode(bits))
      requires 0 <= start < RF_BUF_SIZE && rfBufLen < RF_BUF_SIZE
      requires Coding(CoderOf(), base, start, bits, code, |bits|, q, k, |data| / 2)
      modifies rfBuf
      ensures FecHeld(CoderOf(), base, start, data)
    {
      ghost var c := CoderOf();
      ghost var n, nb := |bits|, |data| / 2;
      ghost var nb1 := nb + 1;
      FecLastBlock(c, base, start, data, bits, code, n, q, k, nb, nb1);
      InterleaveLast();
      FecFinished(c.(buf := InterleaveAt(c.buf, c.len - 4)), base, start, data, bits, code, n, q, k, nb1);
    }

    /** The frame's octets through `encode_bit`, bit by bit; false when a call fails, and the coder then holds what FecAir says. */
    method EncodeOctets(frame: array<bv8>, total: int, ghost base: seq<bv8>, ghost start: int, ghost data: seq<bv8>,
                        ghost bits: seq<bool>, ghost code: seq<bv8>) returns (ok: bool, ghost q: nat, ghost k: nat)
      requires rfBuf.Length == RF_BUF_SIZE && frame != rfBuf && 0 <= total <= frame.Length && data == frame[..total]
      requires bits == FecBits(data) && code == CodeBytes(Encode(bits)) && 0 <= start < RF_BUF_SIZE && rfBufLen < RF_BUF_SIZE
      requires Coding(CoderOf(), base, start, bits, code, 0, 0, 0, 0)
      modifies this`m2, this`m1, this`m0, this`bi, this`rfBufLen, this`rfBp, rfBuf
      ensures ok ==> Coding(CoderOf(), base, start, bits, code, 8 * total, q, k, total / 2) && rfBufLen < RF_BUF_SIZE
      ensures !ok ==> FecHeld(CoderOf(), base, start, data)
    {
      var bitCnt := 0;
      ghost var n: nat, nb: nat;
      n, q, k, nb := 0, 0, 0, 0;
      var i := 0;
      while i < total
        invariant 0 <= i <= total && n == 8 * i && 0 <= bitCnt < 32 && bitCnt == 2 * (n - 16 * nb) && rfBufLen < RF_BUF_SIZE
        invariant Coding(CoderOf(), base, start, bits, code, n, q, k, nb)
      {
        ok, bitCnt, n, q, k, nb := EncodeOctet(frame, i, bitCnt, base, start, data, bits, code, n, q, k, nb);
        if !ok {
          return;
        }
        i := i + 1;
      }
      HalfBlocks(total, nb, bitCnt);
      ok := true;
    }

    /** One frame octet through `encode_bit`, most significant bit first, with the interleave after every 32 code bits. */
    method EncodeOctet(frame: array<bv8>, i: int, bitCnt: int, ghost base: seq<bv8>, ghost start: int, ghost data: seq<bv8>,
                       ghost bits: seq<bool>, ghost code: seq<bv8>, ghost n0: nat, ghost q0: nat, ghost k0: nat, ghost nb0: nat)
      returns (ok: bool, cnt: int, ghost n: nat, ghost q: nat, ghost k: nat, ghost nb: nat)
      requires rfBuf.Length == RF_BUF_SIZE && frame != rfBuf && 0 <= i < |data| <= frame.Length && data == frame[..|data|]
      requires bits == FecBits(data) && code == CodeBytes(Encode(bits)) && 0 <= start < RF_BUF_SIZE && rfBufLen < RF_BUF_SIZE
      requires n0 == 8 * i && Coding(CoderOf(), base, start, bits, code, n0, q0, k0, nb0) && 0 <= bitCnt < 32 && bitCnt == 2 * (n0 - 16 * nb0)
      modifies this`m2, this`m1, this`m0, this`bi, this`rfBufLen, this`rfBp, rfBuf
      ensures ok ==> n == n0 + 8 && Coding(CoderOf(), base, start, bits, code, n, q, k, nb) && rfBufLen < RF_BUF_SIZE
      ensures ok ==> 0 <= cnt < 32 && cnt == 2 * (n - 16 * nb)
      ensures !ok ==> FecHeld(CoderOf(), base, start, data)
    {
      n, q, k, nb, cnt := n0, q0, k0, nb0, bitCnt;
      var bp: bv8 := 0x80;
      ghost var j := 0;
      while bp != 0
        invariant 0 <= j <= 8 && (j < 8 ==> bp == Mask(j)) && (j == 8 <==> bp == 0) && n == n0 + j
        invariant 0 <= cnt < 32 && cnt == 2 * (n - 16 * nb) && rfBufLen < RF_BUF_SIZE
        invariant Coding(CoderOf(), base, start, bits, code, n, q, k, nb)
        decreases 8 - j
      {
        var r;
        r, cnt, n, q, k, nb := FrameBit(frame[i] & bp != 0, cnt, base, start, data, bits, code, i, j, n, q, k, nb);
        if r != 0 {
          ok := false;
          return;
        }
        MaskStep(j);
        bp := bp >> 1;
        j := j + 1;
      }
      ok := true;
    }

    /** The tail and the pad through `encode_bit`; false when a call fails, and the coder then holds what FecAir says. */
    method EncodeTail(total: int, ghost base: seq<bv8>, ghost start: int, ghost data: seq<bv8>,
                      ghost bits: seq<bool>, ghost code: seq<bv8>, ghost q0: nat, ghost k0: nat) returns (ok: bool, ghost q: nat, ghost k: nat)
      requires rfBuf.Length == RF_BUF_SIZE && total == |data| && bits == FecBits(data) && code == CodeBytes(Encode(bits))
      requires 0 <= start < RF_BUF_SIZE && rfBufLen < RF_BUF_SIZE
      requires Coding(CoderOf(), base, start, bits, code, 8 * total, q0, k0, total / 2)
      modifies this`m2, this`m1, this`m0, this`bi, this`rfBufLen, this`rfBp, rfBuf
      ensures ok ==> Coding(CoderOf(), base, start, bits, code, |bits|, q, k, total / 2) && rfBufLen < RF_BUF_SIZE
      ensures !ok ==> FecHeld(CoderOf(), base, start, data)
    {
      q, k := q0, k0;
      var tail := TAIL + Pad(total);
      var t := 0;
      ghost var n := 8 * total;
      FecBitsBlocks(data);
      while t < |tail|
        invariant 0 <= t <= |tail| && n == 8 * total + t && rfBufLen < RF_BUF_SIZE
        invariant Coding(CoderOf(), base, start, bits, code, n, q, k, total / 2)
      {
        var r;
        TailBitIs(data, bits, t, n, tail[t]);
        r, n, q, k := TailBit(tail[t], base, start, data, bits, code, t, n, q, k, total / 2);
        if r != 0 {
          ok := false;
          return;
        }
        t := t + 1;
      }
      ok := true;
    }

    /** Bit `j` of frame octet `i` through CodeDataBit: the coder state one bit further on, or what FecAir says. */
    method FrameBit(bit: bool, bitCnt: int, ghost base: seq<bv8>, ghost start: int, ghost data: seq<bv8>,
                    ghost bits: seq<bool>, ghost code: seq<bv8>, ghost i: int, ghost j: int, ghost n0: nat, ghost q0: nat, ghost k0: nat, ghost nb0: nat)
      returns (r: int, cnt: int, ghost n: nat, ghost q: nat, ghost k: nat, ghost nb: nat)
      requires rfBuf.Length == RF_BUF_SIZE && 0 <= i < |data| && 0 <= j < 8 && bit == (data[i] & Mask(j) != 0)
      requires bits == FecBits(data) && code == CodeBytes(Encode(bits)) && 0 <= start < RF_BUF_SIZE && rfBufLen < RF_BUF_SIZE
      requires n0 == 8 * i + j && Coding(CoderOf(), base, start, bits, code, n0, q0, k0, nb0) && 0 <= bitCnt < 32 && bitCnt == 2 * (n0 - 16 * nb0)
      modifies this`m2, this`m1, this`m0, this`bi, this`rfBufLen, this`rfBp, rfBuf
      ensures r == 0 ==> n == n0 + 1 && Coding(CoderOf(), base, start, bits, code, n, q, k, nb) && rfBufLen < RF_BUF_SIZE
      ensures r == 0 ==> 0 <= cnt < 32 && cnt == 2 * (n - 16 * nb)
      ensures r != 0 ==> FecHeld(CoderOf(), base, start, data)
    {
      DataStep(CoderOf(), base, start, data, bits, code, i, j, bit, n0, q0, k0, nb0, bitCnt);
      n, q, k, nb := n0 + 1, QAfter(q0, k0), KAfter(k0), BlocksAfter(nb0, bitCnt);
      r, cnt := CodeDataBit(bit, bitCnt);
    }

    /** Bit `t` of the tail and pad through `encode_bit`: the coder state one bit further on, or what FecAir says. */
    method TailBit(bit: bool, ghost base: seq<bv8>, ghost start: int, ghost data: seq<bv8>, ghost bits: seq<bool>, ghost code: seq<bv8>,
                   ghost t: int, ghost n0: nat, ghost q0: nat, ghost k0: nat, ghost nb: nat)
      returns (r: int, ghost n: nat, ghost q: nat, ghost k: nat)
      requires rfBuf.Length == RF_BUF_SIZE && 0 <= t && n0 < |bits| && bits[n0] == bit && |bits| == 16 * (nb + 1)
      requires bits == FecBits(data) && code == CodeBytes(Encode(bits)) && 0 <= start < RF_BUF_SIZE && rfBufLen < RF_BUF_SIZE
      requires n0 == 8 * |data| + t && nb == |data| / 2 && Coding(CoderOf(), base, start, bits, code, n0, q0, k0, nb)
      modifies this`m2, this`m1, this`m0, this`bi, this`rfBufLen, this`rfBp, rfBuf
      ensures r == 0 ==> n == n0 + 1 && Coding(CoderOf(), base, start, bits, code, n, q, k, nb) && rfBufLen < RF_BUF_SIZE
      ensures r != 0 ==> FecHeld(CoderOf(), base, start, data)
    {
      ghost var c := CoderOf();
      TailStep(c, base, start, data, bits, code, bit, t, n0, q0, k0, nb);
      n, q, k := n0 + 1, QAfter(q0, k0), KAfter(k0);
      r := EncodeBit(bit);
    }

    /**
     * One bit of the frame through `encode_bit`, counted in `rf_bit_cnt`
     * (two code bits each); at 32 the last four octets are interleaved and
     * the count restarts.
     */
    method CodeDataBit(bit: bool, bitCnt: int) returns (r: int, cnt: int)
      requires rfBuf.Length == RF_BUF_SIZE && Writable(CoderOf())
      requires EncodeBitF(CoderOf(), bit).1 && bitCnt + 2 == 32 ==> 4 <= EncodeBitF(CoderOf(), bit).0.len
      modifies this`m2, this`m1, this`m0, this`bi, this`rfBufLen, this`rfBp, rfBuf
      ensures (r == 0) == EncodeBitF(old(CoderOf()), bit).1
      ensures CoderOf() == DataBitCoder(old(CoderOf()), bit, bitCnt) && cnt == DataBitCount(r == 0, bitCnt)
    {
      r := EncodeBit(bit);
      cnt := bitCnt;
      if r != 0 {
        return;
      }
      cnt := cnt + 2;
      if cnt == 32 {
        cnt := 0;
        InterleaveLast();
      }
    }

    /** `interleave(&rf_buf[rf_buf_len - 4])`: the four octets last written, on the coder. */
    method InterleaveLast()
      requires rfBuf.Length == RF_BUF_SIZE && 4 <= rfBufLen <= RF_BUF_SIZE
      modifies rfBuf
      ensures CoderOf() == old(CoderOf()).(buf := InterleaveAt(old(CoderOf()).buf, old(CoderOf()).len - 4))
    {
      InterleaveRf(rfBufLen - 4);
    }

    /** `interleave(&rf_buf[at])`. */
    method InterleaveRf(at: int)
      requires rfBuf.Length == RF_BUF_SIZE && 0 <= at && at + 4 <= RF_BUF_SIZE
      modifies rfBuf
      ensures rfBuf[..] == InterleaveAt(old(rfBuf[..]), at)
    {
      ghost var b := rfBuf[..];
      var blk := InterleaveBlock(rfBuf[at..at + 4]);
      rfBuf[at], rfBuf[at + 1], rfBuf[at + 2], rfBuf[at + 3] := blk[0], blk[1], blk[2], blk[3];
      assert rfBuf[..] == b[at := blk[0]][at + 1 := blk[1]][at + 2 := blk[2]][at + 3 := blk[3]];
      PutWord(b, at, Interleave(Word32(b[at..at + 4])));
    }

    /** `generate_packet`: the packet Build describes laid at the start of `rf_buf`, the registers as Load says. */
    method Generate()
      requires Valid() && Built()
      modifies this`phr, this`lfsr, this`crc16, this`crc32, this`m2, this`m1, this`m0, this`bi,
               this`rfBufLen, this`rfBp, rfBuf
      ensures Snapshot() == Load(Cfg(), pkt, old(Snapshot()))
    {
      LayPacket();
    }

    /**
     * The work of `generate_packet`: the header, the frame built in
     * `phr_psdu_buf`, then coded into `rf_buf` or copied there; the fields
     * as the recorded packet says.
     */
    method LayPacket()
      requires rfBuf.Length == RF_BUF_SIZE && Fits(Cfg()) && Built()
      modifies this`phr, this`lfsr, this`crc16, this`crc32, this`m2, this`m1, this`m0, this`bi,
               this`rfBufLen, this`rfBp, rfBuf
      ensures rfBuf[..] == Overlay(pkt.air, old(rfBuf[..])) && rfBufLen == |pkt.air| && phr == pkt.phr
      ensures lfsr == if dwEn || payloadContentType == PAYLOAD_TYPE_PN9 then pkt.lfsr else old(lfsr)
      ensures crc16 == if fcsType then pkt.crc16 else old(crc16)
      ensures crc32 == if fcsType then old(crc32) else pkt.crc32
      ensures Encoder(m2, m1, m0, bi) == if nrnsc then pkt.enc else old(Encoder(m2, m1, m0, bi))
      ensures rfBp == if nrnsc then 0x80 else old(rfBp)
    {
      ghost var b0 := rfBuf[..];
      WriteHeader();
      var frame := new bv8[PHR_PSDU_BUF_SIZE];
      var total := PacketFrame(frame);
      if nrnsc {
        LayCoded(frame, total, b0);
      } else {
        LayUncoded(frame, total, b0);
      }
    }

    /** BuildFrame, with the registers it sets stated as the recorded packet's. */
    method PacketFrame(frame: array<bv8>) returns (total: int)
      requires Fits(Cfg()) && Built() && frame.Length == PHR_PSDU_BUF_SIZE
      modifies this`phr, this`lfsr, this`crc16, this`crc32, frame
      ensures total == |pkt.frame| <= frame.Length && frame[..total] == pkt.frame && phr == pkt.phr
      ensures lfsr == if dwEn || payloadContentType == PAYLOAD_TYPE_PN9 then pkt.lfsr else old(lfsr)
      ensures crc16 == if fcsType then pkt.crc16 else old(crc16)
      ensures crc32 == if fcsType then old(crc32) else pkt.crc32
    {
      PacketParts();
      total := BuildFrame(frame);
    }

    /** The packet recorded is the one Build describes, part by part. */
    lemma PacketParts()
      requires Fits(Cfg()) && Built()
      ensures pkt.air == Air(Cfg()) && pkt.frame == FrameOf(Cfg()) && pkt.phr == Make(psduSize, dwEn, fcsType) && pkt.lfsr == TxLfsr(Cfg())
      ensures pkt.crc16 == Crc16Over(INITIAL_CRC16, PayloadOf(Cfg())) && pkt.crc32 == Fcs32Register(PayloadOf(Cfg()))
      ensures pkt.enc == EncoderAfter(FecBits(FrameOf(Cfg())), FecConsumed(FrameOf(Cfg()), Room(Cfg())))
    {
      BuildParts(Cfg(), pkt);
    }

    /** The coded branch of `generate_packet` after the header: the packet as Air describes it. */
    method LayCoded(frame: array<bv8>, total: int, ghost b0: seq<bv8>)
      requires rfBuf.Length == RF_BUF_SIZE && frame != rfBuf && Fits(Cfg()) && nrnsc && |b0| == RF_BUF_SIZE
      requires Built() && total == |pkt.frame| <= frame.Length && frame[..total] == pkt.frame
      requires rfBufLen == HeaderLength(preambleBytes) && rfBuf[..] == Header(preambleBytes, nrnsc) + b0[rfBufLen..]
      modifies this`m2, this`m1, this`m0, this`bi, this`rfBufLen, this`rfBp, rfBuf
      ensures rfBuf[..] == Overlay(pkt.air, b0) && rfBufLen == |pkt.air| && rfBp == 0x80
      ensures Encoder(m2, m1, m0, bi) == pkt.enc
    {
      PacketParts();
      ghost var base := rfBuf[..];
      ghost var at := rfBufLen;
      ghost var data := FrameOf(Cfg());
      EncodeFrame(frame, total);
      FecHeldOpen(CoderOf(), base, at, data);
      LaidAir(Cfg(), b0, base, FecAir(data, Room(Cfg())), rfBuf[..]);
    }

    /** The uncoded branch of `generate_packet` after the header: the frame copied after it. */
    method LayUncoded(frame: array<bv8>, total: int, ghost b0: seq<bv8>)
      requires rfBuf.Length == RF_BUF_SIZE && frame != rfBuf && Fits(Cfg()) && !nrnsc && |b0| == RF_BUF_SIZE
      requires Built() && total == |pkt.frame| <= frame.Length && frame[..total] == pkt.frame
      requires rfBufLen == HeaderLength(preambleBytes) && rfBuf[..] == Header(preambleBytes, nrnsc) + b0[rfBufLen..]
      modifies this`rfBufLen, rfBuf
      ensures rfBuf[..] == Overlay(pkt.air, b0) && rfBufLen == |pkt.air|
    {
      PacketParts();
      ghost var base := rfBuf[..];
      CopyFrame(frame, total);
      LaidAir(Cfg(), b0, base, FrameOf(Cfg()), rfBuf[..]);
    }

    /**
     * The frame `generate_packet` assembles in `phr_psdu_buf`: the PHR, the
     * payload, the FCS, the PSDU whitened when DW is set.
     */
    method BuildFrame(frame: array<bv8>) returns (total: int)
      requires Fits(Cfg()) && frame.Length == PHR_PSDU_BUF_SIZE
      modifies this`phr, this`lfsr, this`crc16, this`crc32, frame
      ensures total == |FrameOf(Cfg())| && frame[..total] == FrameOf(Cfg())
      ensures phr == Make(psduSize, dwEn, fcsType)
      ensures lfsr == if dwEn || payloadContentType == PAYLOAD_TYPE_PN9 then TxLfsr(Cfg()) else old(lfsr)
      ensures crc16 == if fcsType then Crc16Over(INITIAL_CRC16, PayloadOf(Cfg())) else old(crc16)
      ensures crc32 == if fcsType then old(crc32) else Fcs32Register(PayloadOf(Cfg()))
    {
      ghost var payload := PayloadOf(Cfg());
      var idx := PhrAndPayload(frame);
      ghost var f1 := frame[..PHR_LENGTH + idx];
      assert frame[PHR_LENGTH..PHR_LENGTH + idx] == payload;
      var end := AppendFcs(frame, idx);
      ghost var fcs := Fcs(payload, fcsType);
      ghost var plain := payload + fcs;
      assert frame[..PHR_LENGTH + end] == f1 + fcs;
      assert f1 + fcs == ToOctets(phr) + plain;
      if dwEn {
        assert frame[PHR_LENGTH..PHR_LENGTH + end] == plain;
        assert frame[..PHR_LENGTH] == ToOctets(phr);
        WhitenPsdu(frame, end);
      }
      total := end + PHR_LENGTH;
    }

    /** The PHR word and its two octets, then the payload after them. */
    method PhrAndPayload(frame: array<bv8>) returns (idx: int)
      requires Fits(Cfg()) && frame.Length == PHR_PSDU_BUF_SIZE
      modifies this`phr, this`lfsr, frame
      ensures phr == Make(psduSize, dwEn, fcsType)
      ensures idx == |PayloadOf(Cfg())| && frame[..PHR_LENGTH + idx] == ToOctets(phr) + PayloadOf(Cfg())
      ensures lfsr == if payloadContentType == PAYLOAD_TYPE_PN9 then Pn9After(PN9_SEED, idx) else old(lfsr)
    {
      phr := Make(psduSize, dwEn, fcsType);
      frame[0], frame[1] := HighByte(phr), LowByte(phr);
      assert frame[..PHR_LENGTH] == ToOctets(phr);
      var count := if fcsType then psduSize - 2 else psduSize - 4;
      assert count == PayloadSize(Cfg());
      idx := WritePayload(frame, count);
    }

    /** The FCS of the chosen type over the `idx` payload octets, after them. */
    method AppendFcs(frame: array<bv8>, idx: int) returns (end: int)
      requires frame.Length == PHR_PSDU_BUF_SIZE && 0 <= idx && PHR_LENGTH + idx + FcsLength(fcsType) <= frame.Length
      modifies this`crc16, this`crc32, frame
      ensures end == idx + FcsLength(fcsType)
      ensures var payload := old(frame[PHR_LENGTH..PHR_LENGTH + idx]);
        frame[..PHR_LENGTH + end] == old(frame[..PHR_LENGTH + idx]) + Fcs(payload, fcsType)
      ensures crc16 == if fcsType then Crc16Over(INITIAL_CRC16, old(frame[PHR_LENGTH..PHR_LENGTH + idx])) else old(crc16)
      ensures crc32 == if fcsType then old(crc32) else Fcs32Register(old(frame[PHR_LENGTH..PHR_LENGTH + idx]))
    {
      if fcsType {
        end := AppendCrc16(frame, idx);
      } else {
        end := AppendCrc32(frame, idx);
      }
    }
  }
}
