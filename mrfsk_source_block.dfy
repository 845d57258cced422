/**
 * The block of lib/mrfsk_source_impl.cc as the scheduler sees it: `work`
 * hands out one octet per output item from a state machine (start-up
 * filler, the packet `generate_packet` built, a pad octet, a gap of zeros,
 * the next packet) and tags the output where the power amplifier is to be
 * switched on and off.
 *
 * The functions say what one item (Step) and what one call of `work`
 * (Produce) do to the block's fields; the class SourceBlock does it the way
 * the code does and is proved against them.
 */
module MrfskSourceBlock {
  import opened Primitives
  import opened Phr
  import opened Frame
  import opened Nrnsc
  import opened Bits
  import opened MrfskSource
  import opened Folds

  /** The states of lib/mrfsk_source_impl.h. */
  datatype TxState = InitDelay | GeneratePacket | SendPacket | PadPacket | DelayStart | Delay | Done | Pn9Lfsr

  /** The settings the constructor fixes (after clamping `psdu_size`). */
  datatype Settings = Settings(preambleBytes: int, nrnsc: bool, dw: bool, fcs16: bool, psduSize: int,
                               delayTotal: int, payloadType: int)

  /** A `pa_ramp` tag: the absolute output position and whether the amplifier goes on (1) or off (0). */
  datatype Tag = Tag(offset: int, on: bool)

  /** The fields `work` and `generate_packet` change. */
  datatype Fields = Fields(state: TxState, delayCountdown: int, pktCountdown: int,
                           phr: bv16, lfsr: bv16, crc16: bv16, crc32: bv32, enc: Encoder,
                           buf: seq<bv8>, bufLen: int, bufSent: int, bp: bv8, tags: seq<Tag>)

  /**
   * What the fixed-size buffers demand of the settings: the PSDU fits
   * `phr_psdu_buf`, and preamble, SFD and frame fit `rf_buf` (coded, at
   * least one octet must be left after the SFD).
   */
  predicate Fits(cfg: Settings)
  {
    FcsLength(cfg.fcs16) <= cfg.psduSize <= PHR_PSDU_BUF_SIZE - PHR_LENGTH &&
    (cfg.payloadType == PAYLOAD_TYPE_CRC_TEST ==> cfg.psduSize == |CRC_TEST_PAYLOAD| + FcsLength(cfg.fcs16)) &&
    HeaderLength(cfg.preambleBytes) + (if cfg.nrnsc then 1 else PHR_LENGTH + cfg.psduSize) <= RF_BUF_SIZE
  }

  /** `psdu_size_wo_crc`: the payload octets before the FCS. */
  function PayloadSize(cfg: Settings): (n: nat)
    requires Fits(cfg)
    ensures n + FcsLength(cfg.fcs16) == cfg.psduSize
  {
    cfg.psduSize - FcsLength(cfg.fcs16)
  }

  function PayloadOf(cfg: Settings): (p: seq<bv8>)
    requires Fits(cfg)
    ensures |p| <= PayloadSize(cfg)
  {
    Payload(cfg.payloadType, PayloadSize(cfg))
  }

  /** The PHR and PSDU `generate_packet` assembles in `phr_psdu_buf`. */
  function FrameOf(cfg: Settings): (f: seq<bv8>)
    requires Fits(cfg)
    ensures |f| <= PHR_LENGTH + cfg.psduSize <= PHR_PSDU_BUF_SIZE
  {
    PhrPsdu(cfg.psduSize, cfg.fcs16, cfg.dw, PayloadOf(cfg))
  }

  /** The octets of `rf_buf` left after preamble and SFD. */
  function Room(cfg: Settings): (room: int)
    requires Fits(cfg)
    ensures cfg.nrnsc ==> room >= 1
  {
    RF_BUF_SIZE - HeaderLength(cfg.preambleBytes)
  }

  /** The packet as it goes on the air: preamble, SFD, then the frame as it is or coded. */
  function Air(cfg: Settings): (air: seq<bv8>)
    requires Fits(cfg)
    ensures 2 <= |air| <= RF_BUF_SIZE
  {
    var hdr := Header(cfg.preambleBytes, cfg.nrnsc);
    hdr + (if cfg.nrnsc then FecAir(FrameOf(cfg), Room(cfg)) else FrameOf(cfg))
  }

  /**
   * The values `generate_packet` computes from the settings alone: the
   * packet, the frame assembled in `phr_psdu_buf`, the header word, the
   * registers it leaves behind.
   */
  datatype Packet = Packet(air: seq<bv8>, frame: seq<bv8>, phr: bv16, lfsr: bv16, crc16: bv16, crc32: bv32, enc: Encoder)

  /** The packet has an SFD and fits `rf_buf`. */
  predicate PacketFits(pk: Packet)
  {
    2 <= |pk.air| <= RF_BUF_SIZE
  }

  function Build(cfg: Settings): (pk: Packet)
    requires Fits(cfg)
    ensures PacketFits(pk)
  {
    var payload := PayloadOf(cfg);
    var frame := FrameOf(cfg);
    Packet(Air(cfg), frame, Make(cfg.psduSize, cfg.dw, cfg.fcs16), TxLfsr(cfg),
           Crc16Over(INITIAL_CRC16, payload), Fcs32Register(payload),
           EncoderAfter(FecBits(frame), FecConsumed(frame, Room(cfg))))
  }

  /** The PN9 register after whitening the PSDU, or else after the PN9 payload. */
  function TxLfsr(cfg: Settings): bv16
    requires Fits(cfg)
  {
    var payload := PayloadOf(cfg);
    Pn9After(PN9_SEED, if cfg.dw then |payload| + FcsLength(cfg.fcs16) else |payload|)
  }

  /**
   * The header written over `b0`, then the frame, coded or not, after it:
   * the packet Air describes laid over `b0`.
   */
  lemma LaidAir(cfg: Settings, b0: seq<bv8>, base: seq<bv8>, body: seq<bv8>, buf: seq<bv8>)
    requires Fits(cfg) && |b0| == RF_BUF_SIZE
    requires base == Header(cfg.preambleBytes, cfg.nrnsc) + b0[HeaderLength(cfg.preambleBytes)..]
    requires body == if cfg.nrnsc then FecAir(FrameOf(cfg), Room(cfg)) else FrameOf(cfg)
    requires var at := HeaderLength(cfg.preambleBytes);
      at + |body| <= RF_BUF_SIZE && buf == base[..at] + body + base[at + |body|..]
    ensures buf == Overlay(Air(cfg), b0)
  {
    var at := HeaderLength(cfg.preambleBytes);
    var hdr := Header(cfg.preambleBytes, cfg.nrnsc);
    assert base[..at] == hdr;
    assert base[at + |body|..] == b0[at + |body|..];
    assert Air(cfg) == hdr + body;
  }

  /** The parts of a built packet, each from the function that describes it. */
  lemma BuildParts(cfg: Settings, pk: Packet)
    requires Fits(cfg) && pk == Build(cfg)
    ensures pk.air == Air(cfg) && pk.frame == FrameOf(cfg) && pk.phr == Make(cfg.psduSize, cfg.dw, cfg.fcs16) && pk.lfsr == TxLfsr(cfg)
    ensures pk.crc16 == Crc16Over(INITIAL_CRC16, PayloadOf(cfg)) && pk.crc32 == Fcs32Register(PayloadOf(cfg))
    ensures pk.enc == EncoderAfter(FecBits(FrameOf(cfg)), FecConsumed(FrameOf(cfg), Room(cfg)))
  {
  }

  /**
   * `rf_buf[i]`. Inv keeps every read the block makes inside the buffer, so
   * the 0 given for a read outside it is never used.
   */
  function Octet(buf: seq<bv8>, i: int): bv8
  {
    if 0 <= i < |buf| then buf[i] else 0
  }

  /** The packet laid at the start of `rf_buf` (a packet longer than the buffer, which Inv rules out, replaces it). */
  function Overlay(air: seq<bv8>, buf: seq<bv8>): seq<bv8>
  {
    if |air| <= |buf| then air + buf[|air|..] else air
  }

  /** Laid over a buffer at least as long, the packet is the buffer's prefix and the rest is kept. */
  lemma OverlayLaid(air: seq<bv8>, buf: seq<bv8>)
    requires |air| <= |buf|
    ensures var r := Overlay(air, buf); |r| == |buf| && r[..|air|] == air && r[|air|..] == buf[|air|..]
  {
  }

  /**
   * The fields after `generate_packet` built `pk`: the PN9 register is left
   * after whitening or after a PN9 payload, only the CRC of the chosen FCS
   * and, coded, the encoder registers are set; the packet is laid at the
   * start of `rf_buf`.
   */
  function Load(cfg: Settings, pk: Packet, s: Fields): Fields
  {
    s.(phr := pk.phr,
       lfsr := if cfg.dw || cfg.payloadType == PAYLOAD_TYPE_PN9 then pk.lfsr else s.lfsr,
       crc16 := if cfg.fcs16 then pk.crc16 else s.crc16,
       crc32 := if cfg.fcs16 then s.crc32 else pk.crc32,
       enc := if cfg.nrnsc then pk.enc else s.enc,
       bp := if cfg.nrnsc then 0x80 else s.bp,
       buf := Overlay(pk.air, s.buf),
       bufLen := |pk.air|)
  }

  /** The buffer has its fixed size, and while a packet is being sent the cursor is inside it. */
  predicate Inv(s: Fields)
  {
    |s.buf| == RF_BUF_SIZE && 0 <= s.bufLen <= RF_BUF_SIZE &&
    (s.state == SendPacket ==> 0 <= s.bufSent < s.bufLen)
  }

  /**
   * One pass of the loop in `work`, `pos` being the absolute position of its
   * output item: the octet written and counted, or the end of the call
   * (`return sent` after the last packet, the item not counted; `return -1`
   * once done).
   */
  function Step(cfg: Settings, pk: Packet, s: Fields, pos: int): (Fields, Emission<bv8>)
  {
    match s.state
    case InitDelay =>
      if cfg.payloadType == PAYLOAD_PN9_FOREVER then
        var (b, l) := GetPn9Byte(PN9_SEED);
        (s.(lfsr := l, state := Pn9Lfsr, tags := s.tags + [Tag(pos, true)]), Emit(b))
      else
        var d := s.delayCountdown - 1;
        (s.(delayCountdown := d, state := if d == 0 then GeneratePacket else InitDelay), Emit(STARTUP_FILL))
    case GeneratePacket =>
      var g := Load(cfg, pk, s);
      (g.(bufSent := 1, tags := g.tags + [Tag(pos, true)], state := SendPacket), Emit(Octet(g.buf, 0)))
    case SendPacket =>
      var t := s.bufSent + 1;
      (s.(bufSent := t, state := if t >= s.bufLen then PadPacket else SendPacket), Emit(Octet(s.buf, s.bufSent)))
    case PadPacket =>
      (s.(state := DelayStart), Emit(0))
    case DelayStart =>
      (s.(tags := s.tags + [Tag(pos, false)], delayCountdown := cfg.delayTotal, state := Delay), Emit(0))
    case Delay =>
      var d := s.delayCountdown - 1;
      if d <= 0 then
        var p := s.pktCountdown - 1;
        if p == 0 then (s.(delayCountdown := d, pktCountdown := p, state := Done), Finish)
        else (s.(delayCountdown := d, pktCountdown := p, state := GeneratePacket), Emit(0))
      else
        (s.(delayCountdown := d), Emit(0))
    case Done =>
      (s, Abort)
    case Pn9Lfsr =>
      var (b, l) := GetPn9Byte(s.lfsr);
      (s.(lfsr := l), Emit(b))
  }

  /** Every step keeps Inv. */
  lemma StepKeepsInv(cfg: Settings, pk: Packet)
    requires PacketFits(pk)
    ensures forall s, pos :: Inv(s) ==> Inv(Step(cfg, pk, s, pos).0)
  {
    forall s: Fields, pos | Inv(s) ensures Inv(Step(cfg, pk, s, pos).0) {
      OverlayLaid(pk.air, s.buf);
    }
  }

  /** The step as a function of the fields and the position alone. */
  function Next(cfg: Settings, pk: Packet): (Fields, int) -> (Fields, Emission<bv8>)
  {
    (s, pos) => Step(cfg, pk, s, pos)
  }

  /**
   * One call of `work` with room for `n` items from output position `pos`,
   * every packet being `pk`: the fields after it, the octets written and
   * counted, and the value returned (the count, or -1 once done).
   */
  ghost function Produce(cfg: Settings, pk: Packet, s: Fields, pos: int, n: nat): (r: (Fields, seq<bv8>, int))
    ensures |r.1| <= n && -1 <= r.2 && (r.2 >= 0 ==> r.2 == |r.1|)
  {
    Drive(Next(cfg, pk), s, pos, n)
  }

  /** A call of `work` keeps Inv. */
  lemma ProduceKeepsInv(cfg: Settings, pk: Packet, s: Fields, pos: int, n: nat)
    requires PacketFits(pk) && Inv(s)
    ensures Inv(Produce(cfg, pk, s, pos, n).0)
  {
    StepKeepsInv(cfg, pk);
    DriveKeeps(Next(cfg, pk), Inv, s, pos, n);
  }

  // ---------------------------------------------------------------------
  // What the output stream looks like
  // ---------------------------------------------------------------------

  /** An item that writes an octet puts it in front of what the rest of the call writes. */
  lemma ProduceEmit(cfg: Settings, pk: Packet, s: Fields, pos: int, n: nat, t: Fields, b: bv8)
    requires PacketFits(pk) && Inv(s) && n >= 1 && Step(cfg, pk, s, pos) == (t, Emit(b))
    ensures Inv(t)
    ensures var (u, o, k) := Produce(cfg, pk, t, pos + 1, n - 1);
      Produce(cfg, pk, s, pos, n) == (u, [b] + o, if k < 0 then -1 else k + 1)
  {
    StepKeepsInv(cfg, pk);
    DriveEmit(Next(cfg, pk), s, pos, n);
  }

  /** No room, no item. */
  lemma ProduceNone(cfg: Settings, pk: Packet, s: Fields, pos: int)
    requires PacketFits(pk) && Inv(s)
    ensures Produce(cfg, pk, s, pos, 0) == (s, [], 0)
  {
  }

  /** An item that ends the call ends it at once. */
  lemma ProduceEnd(cfg: Settings, pk: Packet, s: Fields, pos: int, n: nat, t: Fields)
    requires PacketFits(pk) && Inv(s) && n >= 1
    requires Step(cfg, pk, s, pos) == (t, Finish) || Step(cfg, pk, s, pos) == (t, Abort)
    ensures Produce(cfg, pk, s, pos, n) == (t, [], if Step(cfg, pk, s, pos).1.Finish? then 0 else -1)
  {
  }

  /** Room for `m` + `n` items is room for `m` and then for `n`, when the first `m` are all written. */
  lemma ProduceJoin(cfg: Settings, pk: Packet, s: Fields, pos: int, m: nat, n: nat,
                    t: Fields, o: seq<bv8>, u: Fields, o2: seq<bv8>, k: int)
    requires PacketFits(pk) && Inv(s) && Produce(cfg, pk, s, pos, m) == (t, o, m)
    requires Inv(t) && Produce(cfg, pk, t, pos + m, n) == (u, o2, k)
    ensures Produce(cfg, pk, s, pos, m + n) == (u, o + o2, if k < 0 then -1 else m + k)
  {
    DriveJoin(Next(cfg, pk), s, pos, m, n);
  }

  /**
   * A call of `work` resumed after the octets `done`: what the whole call
   * gives when the rest of it, from the fields `s` at position `pos` with
   * room for `n` items, gives Produce.
   */
  ghost function Resume(cfg: Settings, pk: Packet, s: Fields, pos: int, n: nat, done: seq<bv8>): (r: (Fields, seq<bv8>, int))
    ensures |done| <= |r.1| && r.1[..|done|] == done
  {
    var (t, o, k) := Produce(cfg, pk, s, pos, n);
    assert (done + o)[..|done|] == done;
    (t, done + o, if k < 0 then -1 else k + |done|)
  }

  /** Before the first item, the resumed call is the call. */
  lemma ResumeStart(cfg: Settings, pk: Packet, s: Fields, pos: int, n: nat)
    ensures Resume(cfg, pk, s, pos, n, []) == Produce(cfg, pk, s, pos, n)
  {
    assert [] + Produce(cfg, pk, s, pos, n).1 == Produce(cfg, pk, s, pos, n).1;
  }

  /** An item that writes an octet moves it from the rest of the call to the octets done. */
  lemma ResumeEmit(cfg: Settings, pk: Packet, s: Fields, pos: int, n: nat, done: seq<bv8>, t: Fields, b: bv8)
    requires PacketFits(pk) && Inv(s) && n >= 1 && Step(cfg, pk, s, pos) == (t, Emit(b))
    ensures Inv(t) && Resume(cfg, pk, s, pos, n, done) == Resume(cfg, pk, t, pos + 1, n - 1, done + [b])
  {
    ProduceEmit(cfg, pk, s, pos, n, t, b);
    var o := Produce(cfg, pk, t, pos + 1, n - 1).1;
    assert done + ([b] + o) == (done + [b]) + o;
  }

  /** An item that ends the call leaves the octets done as all there is. */
  lemma ResumeEnd(cfg: Settings, pk: Packet, s: Fields, pos: int, n: nat, done: seq<bv8>, t: Fields)
    requires PacketFits(pk) && Inv(s) && n >= 1
    requires Step(cfg, pk, s, pos) == (t, Finish) || Step(cfg, pk, s, pos) == (t, Abort)
    ensures Resume(cfg, pk, s, pos, n, done) == (t, done, if Step(cfg, pk, s, pos).1.Finish? then |done| else -1)
  {
    ProduceEnd(cfg, pk, s, pos, n, t);
    assert done + [] == done;
  }

  /** One item of a call, whatever it is: what is left of the call after it. */
  lemma ResumeItem(cfg: Settings, pk: Packet, s: Fields, pos: int, n: nat, done: seq<bv8>, t: Fields, e: Emission<bv8>)
    requires PacketFits(pk) && Inv(s) && n >= 1 && Step(cfg, pk, s, pos) == (t, e)
    ensures e.Emit? ==> Resume(cfg, pk, s, pos, n, done) == Resume(cfg, pk, t, pos + 1, n - 1, done + [e.o])
    ensures !e.Emit? ==> Resume(cfg, pk, s, pos, n, done) == (t, done, if e.Finish? then |done| else -1)
  {
    if e.Emit? {
      ResumeEmit(cfg, pk, s, pos, n, done, t, e.o);
    } else {
      ResumeEnd(cfg, pk, s, pos, n, done, t);
    }
  }

  /** With no room left, the call is the octets done. */
  lemma ResumeNone(cfg: Settings, pk: Packet, s: Fields, pos: int, done: seq<bv8>)
    ensures Resume(cfg, pk, s, pos, 0, done) == (s, done, |done|)
  {
    assert done + [] == done;
  }

  /** `d` octets of 0xFF, one per start-up item, then the first packet is due. */
  lemma {:induction false} StartupFill(cfg: Settings, pk: Packet, s: Fields, pos: int, d: int)
    requires PacketFits(pk) && Inv(s) && cfg.payloadType != PAYLOAD_PN9_FOREVER
    requires s.state == InitDelay && s.delayCountdown == d >= 1
    ensures Produce(cfg, pk, s, pos, d) == (s.(delayCountdown := 0, state := GeneratePacket), seq(d, _ => STARTUP_FILL), d)
    decreases d
  {
    var t := s.(delayCountdown := d - 1, state := if d - 1 == 0 then GeneratePacket else InitDelay);
    assert Step(cfg, pk, s, pos) == (t, Emit(STARTUP_FILL));
    ProduceEmit(cfg, pk, s, pos, d, t, STARTUP_FILL);
    if d > 1 {
      StartupFill(cfg, pk, t, pos + 1, d - 1);
    }
    assert [STARTUP_FILL] + seq(d - 1, _ => STARTUP_FILL) == seq(d, _ => STARTUP_FILL);
  }

  /** In the PN9-forever state every item is the next keystream octet. */
  lemma {:induction false} KeystreamRun(cfg: Settings, pk: Packet, s: Fields, pos: int, n: nat)
    requires PacketFits(pk) && Inv(s) && s.state == Pn9Lfsr
    ensures Produce(cfg, pk, s, pos, n) == (s.(lfsr := Pn9After(s.lfsr, n)), Pn9Keystream(s.lfsr, n), n)
    decreases n
  {
    if n > 0 {
      var (b, l) := GetPn9Byte(s.lfsr);
      ProduceEmit(cfg, pk, s, pos, n, s.(lfsr := l), b);
      KeystreamRun(cfg, pk, s.(lfsr := l), pos + 1, n - 1);
    }
  }

  /**
   * With the PN9-forever payload no packet is ever built: from the first
   * item on, the output is the PN9 keystream from the seed, and the
   * amplifier is switched on once, at the first item.
   */
  lemma Pn9Forever(cfg: Settings, pk: Packet, s: Fields, pos: int, n: nat)
    requires PacketFits(pk) && Inv(s) && cfg.payloadType == PAYLOAD_PN9_FOREVER && s.state == InitDelay && n >= 1
    ensures Produce(cfg, pk, s, pos, n) ==
      (s.(lfsr := Pn9After(PN9_SEED, n), state := Pn9Lfsr, tags := s.tags + [Tag(pos, true)]), Pn9Keystream(PN9_SEED, n), n)
  {
    var (b, l) := GetPn9Byte(PN9_SEED);
    var t := s.(lfsr := l, state := Pn9Lfsr, tags := s.tags + [Tag(pos, true)]);
    ProduceEmit(cfg, pk, s, pos, n, t, b);
    KeystreamRun(cfg, pk, t, pos + 1, n - 1);
  }

  /** From the cursor on, the rest of the buffer goes out one octet per item, then the pad octet is due. */
  lemma {:induction false} SendRest(cfg: Settings, pk: Packet, s: Fields, pos: int)
    requires PacketFits(pk) && Inv(s) && s.state == SendPacket
    ensures Produce(cfg, pk, s, pos, s.bufLen - s.bufSent) ==
      (s.(bufSent := s.bufLen, state := PadPacket), s.buf[s.bufSent..s.bufLen], s.bufLen - s.bufSent)
    decreases s.bufLen - s.bufSent
  {
    var j := s.bufSent;
    var t := s.(bufSent := j + 1, state := if j + 1 >= s.bufLen then PadPacket else SendPacket);
    assert Step(cfg, pk, s, pos) == (t, Emit(s.buf[j]));
    ProduceEmit(cfg, pk, s, pos, s.bufLen - j, t, s.buf[j]);
    if j + 1 < s.bufLen {
      SendRest(cfg, pk, t, pos + 1);
      assert [s.buf[j]] + s.buf[j + 1..s.bufLen] == s.buf[j..s.bufLen];
    } else {
      ProduceNone(cfg, pk, t, pos + 1);
      assert [s.buf[j]] + [] == [s.buf[j]];
      assert [s.buf[j]] == s.buf[j..s.bufLen];
    }
  }

  /**
   * The gap after a packet: zeros until the countdown, started at `d`,
   * reaches zero (one item if `d` is not positive); then the next packet
   * is due, or, after the last one, `work` returns without counting the
   * final item.
   */
  lemma {:induction false} DelayRun(cfg: Settings, pk: Packet, s: Fields, pos: int, d: int)
    requires PacketFits(pk) && Inv(s) && s.state == Delay && s.delayCountdown == d
    ensures var n := if d >= 1 then d else 1;
      var last := s.pktCountdown == 1;
      Produce(cfg, pk, s, pos, n) ==
        (s.(delayCountdown := if d >= 1 then 0 else d - 1, pktCountdown := s.pktCountdown - 1,
            state := if last then Done else GeneratePacket),
         Zeros(if last then n - 1 else n), if last then n - 1 else n)
    decreases d
  {
    if d > 1 {
      var t := s.(delayCountdown := d - 1);
      assert Step(cfg, pk, s, pos) == (t, Emit(0));
      ProduceEmit(cfg, pk, s, pos, d, t, 0);
      DelayRun(cfg, pk, t, pos + 1, d - 1);
      if s.pktCountdown == 1 {
        assert [0 as bv8] + Zeros(d - 2) == Zeros(d - 1);
      } else {
        assert [0 as bv8] + Zeros(d - 1) == Zeros(d);
      }
    } else if s.pktCountdown == 1 {
      ProduceEnd(cfg, pk, s, pos, 1, s.(delayCountdown := d - 1, pktCountdown := 0, state := Done));
      assert Zeros(0) == [];
    } else {
      var t := s.(delayCountdown := d - 1, pktCountdown := s.pktCountdown - 1, state := GeneratePacket);
      ProduceEmit(cfg, pk, s, pos, 1, t, 0);
      ProduceNone(cfg, pk, t, pos + 1);
      assert [0 as bv8] + [] == [0] == Zeros(1);
    }
  }

  /** The pad octet, then the zero that starts the gap, tagged "amplifier off". */
  lemma PadThenGap(cfg: Settings, pk: Packet, s: Fields, pos: int)
    requires PacketFits(pk) && Inv(s) && s.state == PadPacket
    ensures Produce(cfg, pk, s, pos, 2) ==
      (s.(tags := s.tags + [Tag(pos + 1, false)], delayCountdown := cfg.delayTotal, state := Delay), [0, 0], 2)
  {
    var s3 := s.(state := DelayStart);
    var s4 := s3.(tags := s3.tags + [Tag(pos + 1, false)], delayCountdown := cfg.delayTotal, state := Delay);
    ProduceEmit(cfg, pk, s, pos, 2, s3, 0);
    ProduceEmit(cfg, pk, s3, pos + 1, 1, s4, 0);
    ProduceNone(cfg, pk, s4, pos + 2);
    assert [0 as bv8] + ([0 as bv8] + []) == [0, 0];
  }

  /** The item that builds the packet sends its first octet, tagged "amplifier on"; the rest follows. */
  lemma PacketOut(cfg: Settings, pk: Packet, s: Fields, pos: int)
    requires PacketFits(pk) && Inv(s) && s.state == GeneratePacket
    ensures Produce(cfg, pk, s, pos, |pk.air|) ==
      (Load(cfg, pk, s).(bufSent := |pk.air|, tags := s.tags + [Tag(pos, true)], state := PadPacket), pk.air, |pk.air|)
  {
    var air := pk.air;
    var L := |air|;
    var g := Load(cfg, pk, s);
    var s1 := g.(bufSent := 1, tags := g.tags + [Tag(pos, true)], state := SendPacket);
    OverlayLaid(air, s.buf);
    assert Step(cfg, pk, s, pos) == (s1, Emit(air[0]));
    ProduceEmit(cfg, pk, s, pos, 1, s1, air[0]);
    ProduceNone(cfg, pk, s1, pos + 1);
    assert [air[0]] + [] == [air[0]];
    SendRest(cfg, pk, s1, pos + 1);
    assert s1.buf[1..L] == air[1..];
    ProduceJoin(cfg, pk, s, pos, 1, L - 1, s1, [air[0]], s1.(bufSent := L, state := PadPacket), s1.buf[1..L], L - 1);
    assert [air[0]] + air[1..] == air;
  }

  /** After the packet: the pad octet, the zero tagged "amplifier off", then the gap. */
  lemma GapOut(cfg: Settings, pk: Packet, s: Fields, pos: int)
    requires PacketFits(pk) && Inv(s) && s.state == PadPacket
    ensures var gap := if cfg.delayTotal >= 1 then cfg.delayTotal else 1;
      var last := s.pktCountdown == 1;
      Produce(cfg, pk, s, pos, 2 + gap) ==
        (s.(tags := s.tags + [Tag(pos + 1, false)],
            delayCountdown := if cfg.delayTotal >= 1 then 0 else cfg.delayTotal - 1,
            pktCountdown := s.pktCountdown - 1, state := if last then Done else GeneratePacket),
         Zeros(if last then 1 + gap else 2 + gap), if last then 1 + gap else 2 + gap)
  {
    var gap := if cfg.delayTotal >= 1 then cfg.delayTotal else 1;
    var last := s.pktCountdown == 1;
    PadThenGap(cfg, pk, s, pos);
    var s4 := s.(tags := s.tags + [Tag(pos + 1, false)], delayCountdown := cfg.delayTotal, state := Delay);
    DelayRun(cfg, pk, s4, pos + 2, cfg.delayTotal);
    GapJoin(cfg, pk, s, pos, s4, gap,
            s.(tags := s.tags + [Tag(pos + 1, false)],
               delayCountdown := if cfg.delayTotal >= 1 then 0 else cfg.delayTotal - 1,
               pktCountdown := s.pktCountdown - 1, state := if last then Done else GeneratePacket),
            if last then 1 + gap else 2 + gap);
  }

  /** The two zero octets after the packet, then the gap: zeros all through. */
  lemma GapJoin(cfg: Settings, pk: Packet, s: Fields, pos: int, s4: Fields, gap: nat, u: Fields, z: int)
    requires PacketFits(pk) && Inv(s) && Inv(s4) && 2 <= z
    requires Produce(cfg, pk, s, pos, 2) == (s4, [0, 0], 2)
    requires Produce(cfg, pk, s4, pos + 2, gap) == (u, Zeros(z - 2), z - 2)
    ensures Produce(cfg, pk, s, pos, 2 + gap) == (u, Zeros(z), z)
  {
    ProduceJoin(cfg, pk, s, pos, 2, gap, s4, [0, 0], u, Zeros(z - 2), z - 2);
    assert [0 as bv8, 0] + Zeros(z - 2) == Zeros(z);
  }

  /**
   * One packet cycle, from the item where the packet is built: the packet
   * (its first octet tagged "amplifier on"), a zero pad octet, a zero
   * tagged "amplifier off", then the gap of `delay_total` zeros (at least
   * one). After the last packet the final zero is not counted and the
   * block is done.
   */
  lemma PacketCycle(cfg: Settings, pk: Packet, s: Fields, pos: int)
    requires PacketFits(pk) && Inv(s) && s.state == GeneratePacket
    ensures var air := pk.air;
      var gap := if cfg.delayTotal >= 1 then cfg.delayTotal else 1;
      var last := s.pktCountdown == 1;
      var t := Load(cfg, pk, s).(bufSent := |air|, tags := s.tags + [Tag(pos, true), Tag(pos + |air| + 1, false)],
                  delayCountdown := if cfg.delayTotal >= 1 then 0 else cfg.delayTotal - 1,
                  pktCountdown := s.pktCountdown - 1, state := if last then Done else GeneratePacket);
      Produce(cfg, pk, s, pos, |air| + 2 + gap) ==
        (t, air + Zeros(if last then 1 + gap else 2 + gap), if last then |air| + 1 + gap else |air| + 2 + gap)
  {
    var s2 := Load(cfg, pk, s).(bufSent := |pk.air|, tags := s.tags + [Tag(pos, true)], state := PadPacket);
    PacketOut(cfg, pk, s, pos);
    PacketThenGap(cfg, pk, s, pos, s2);
  }

  /** The packet sent, then the gap after it. */
  lemma PacketThenGap(cfg: Settings, pk: Packet, s: Fields, pos: int, s2: Fields)
    requires PacketFits(pk) && Inv(s) && s.state == GeneratePacket
    requires s2 == Load(cfg, pk, s).(bufSent := |pk.air|, tags := s.tags + [Tag(pos, true)], state := PadPacket)
    requires Produce(cfg, pk, s, pos, |pk.air|) == (s2, pk.air, |pk.air|)
    ensures var air := pk.air;
      var gap := if cfg.delayTotal >= 1 then cfg.delayTotal else 1;
      var last := s.pktCountdown == 1;
      var t := Load(cfg, pk, s).(bufSent := |air|, tags := s.tags + [Tag(pos, true), Tag(pos + |air| + 1, false)],
                  delayCountdown := if cfg.delayTotal >= 1 then 0 else cfg.delayTotal - 1,
                  pktCountdown := s.pktCountdown - 1, state := if last then Done else GeneratePacket);
      Produce(cfg, pk, s, pos, |air| + 2 + gap) ==
        (t, air + Zeros(if last then 1 + gap else 2 + gap), if last then |air| + 1 + gap else |air| + 2 + gap)
  {
    var L := |pk.air|;
    var gap := if cfg.delayTotal >= 1 then cfg.delayTotal else 1;
    var last := s.pktCountdown == 1;
    var z := if last then 1 + gap else 2 + gap;
    var t := Load(cfg, pk, s).(bufSent := L, tags := s.tags + [Tag(pos, true), Tag(pos + L + 1, false)],
                delayCountdown := if cfg.delayTotal >= 1 then 0 else cfg.delayTotal - 1,
                pktCountdown := s.pktCountdown - 1, state := if last then Done else GeneratePacket);
    GapAfterPacket(cfg, pk, s, pos, s2, t);
    ProduceJoin(cfg, pk, s, pos, L, 2 + gap, s2, pk.air, t, Zeros(z), z);
  }

  /** The gap after the packet, from the fields the packet leaves. */
  lemma GapAfterPacket(cfg: Settings, pk: Packet, s: Fields, pos: int, s2: Fields, t: Fields)
    requires PacketFits(pk) && Inv(s) && s.state == GeneratePacket
    requires s2 == Load(cfg, pk, s).(bufSent := |pk.air|, tags := s.tags + [Tag(pos, true)], state := PadPacket)
    requires Inv(s2)
    requires t == Load(cfg, pk, s).(bufSent := |pk.air|, tags := s.tags + [Tag(pos, true), Tag(pos + |pk.air| + 1, false)],
                delayCountdown := if cfg.delayTotal >= 1 then 0 else cfg.delayTotal - 1,
                pktCountdown := s.pktCountdown - 1, state := if s.pktCountdown == 1 then Done else GeneratePacket)
    ensures var gap := if cfg.delayTotal >= 1 then cfg.delayTotal else 1;
      var z := if s.pktCountdown == 1 then 1 + gap else 2 + gap;
      Produce(cfg, pk, s2, pos + |pk.air|, 2 + gap) == (t, Zeros(z), z)
  {
    GapOut(cfg, pk, s2, pos + |pk.air|);
    CycleFields(cfg, pk, s, pos, |pk.air|, s2, t);
  }

  /** The fields after the gap, written from the ones after the packet. */
  lemma CycleFields(cfg: Settings, pk: Packet, s: Fields, pos: int, L: int, s2: Fields, t: Fields)
    requires s2 == Load(cfg, pk, s).(bufSent := L, tags := s.tags + [Tag(pos, true)], state := PadPacket)
    requires t == Load(cfg, pk, s).(bufSent := L, tags := s.tags + [Tag(pos, true), Tag(pos + L + 1, false)],
                delayCountdown := if cfg.delayTotal >= 1 then 0 else cfg.delayTotal - 1,
                pktCountdown := s.pktCountdown - 1, state := if s.pktCountdown == 1 then Done else GeneratePacket)
    ensures t == s2.(tags := s2.tags + [Tag(pos + L + 1, false)],
                     delayCountdown := if cfg.delayTotal >= 1 then 0 else cfg.delayTotal - 1,
                     pktCountdown := s2.pktCountdown - 1, state := if s2.pktCountdown == 1 then Done else GeneratePacket)
  {
    assert s.tags + [Tag(pos, true)] + [Tag(pos + L + 1, false)] == s.tags + [Tag(pos, true), Tag(pos + L + 1, false)];
  }

  /** Once done, every call of `work` returns -1 at once and changes nothing. */
  lemma StaysDone(cfg: Settings, pk: Packet, s: Fields, pos: int, n: nat)
    requires PacketFits(pk) && Inv(s) && s.state == Done && n >= 1
    ensures Produce(cfg, pk, s, pos, n) == (s, [], -1)
  {
  }

  /**
   * Uncoded, the packet is the header and the frame the receiver of
   * lib/framer_sink_mrfsk_impl.cc parses; coded, it is the header and the
   * coded frame, in full when it fits the buffer.
   */
  lemma AirContents(cfg: Settings, payloadType: int, psduLen: int)
    requires Fits(cfg) && cfg.payloadType == payloadType && cfg.psduSize == PsduSize(payloadType, cfg.fcs16, psduLen)
    ensures var hdr := Header(cfg.preambleBytes, cfg.nrnsc);
      var frame := TxFrame(payloadType, cfg.fcs16, cfg.dw, psduLen);
      Air(cfg)[..|hdr|] == hdr &&
      (!cfg.nrnsc ==> Air(cfg) == hdr + frame) &&
      (cfg.nrnsc ==> |Air(cfg)| == |hdr| + 4 * (|frame| / 2 + 1) < RF_BUF_SIZE || |Air(cfg)| == RF_BUF_SIZE)
  {
    FrameIsTx(cfg, payloadType, psduLen);
    AirShape(cfg);
  }

  /** The frame the block assembles is the one TxFrame describes for its constructor arguments. */
  lemma FrameIsTx(cfg: Settings, payloadType: int, psduLen: int)
    requires Fits(cfg) && cfg.payloadType == payloadType && cfg.psduSize == PsduSize(payloadType, cfg.fcs16, psduLen)
    ensures FrameOf(cfg) == TxFrame(payloadType, cfg.fcs16, cfg.dw, psduLen)
  {
  }

  /** The packet is the header, then the frame as it is, or coded (cut at the end of the buffer). */
  lemma AirShape(cfg: Settings)
    requires Fits(cfg)
    ensures var hdr := Header(cfg.preambleBytes, cfg.nrnsc);
      var frame := FrameOf(cfg);
      Air(cfg)[..|hdr|] == hdr &&
      (!cfg.nrnsc ==> Air(cfg) == hdr + frame) &&
      (cfg.nrnsc ==> |Air(cfg)| == |hdr| + 4 * (|frame| / 2 + 1) < RF_BUF_SIZE || |Air(cfg)| == RF_BUF_SIZE)
  {
    var hdr := Header(cfg.preambleBytes, cfg.nrnsc);
    var body := if cfg.nrnsc then FecAir(FrameOf(cfg), Room(cfg)) else FrameOf(cfg);
    assert (hdr + body)[..|hdr|] == hdr;
  }
}
