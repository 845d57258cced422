/**
 * A frame received by the FEC deframer (framer_sink_mrfsk_nrnsc) without
 * channel errors. The frame's octets, most significant bit first, begin
 * the encoder's input bits; each four-octet block on the air, read as a
 * big-endian word and de-interleaved by `interleave_u32`, holds sixteen of
 * the encoder's symbols. From SYNC_SEARCH, the air's bits, the first one
 * flagged by the correlator, queue exactly one type-1 record: the PHR, the
 * de-whitened PSDU and the CRC verdict; then the deframer searches again.
 */
module FecReception {
  import opened Primitives
  import opened Phr
  import opened Frame
  import opened Nrnsc
  import opened Bits
  import opened FramerSinkNrnsc
  import Uncoded = FramerSinkMrfsk
  import MrfskSource

  // ---------------------------------------------------------------------
  // Channel bits into `rf_buf`
  // ---------------------------------------------------------------------

  /** `rf_buf` after the items' bits are shifted in, one at a time. */
  function ShiftIn32(p: bv32, items: seq<bv8>): bv32
    decreases |items|
  {
    if |items| == 0 then p else Shl32(ShiftIn32(p, items[..|items| - 1]), items[|items| - 1])
  }

  /** Shifting in more items continues from the register the first ones left. */
  lemma {:induction false} ShiftIn32Append(p: bv32, a: seq<bv8>, b: seq<bv8>)
    ensures ShiftIn32(p, a + b) == ShiftIn32(ShiftIn32(p, a), b)
    decreases |b|
  {
    if |b| == 0 {
      assert a + b == a;
    } else {
      assert (a + b)[..|a + b| - 1] == a + b[..|b| - 1];
      ShiftIn32Append(p, a, b[..|b| - 1]);
    }
  }

  lemma ShiftIn32Last(p: bv32, items: seq<bv8>)
    requires |items| > 0
    ensures ShiftIn32(p, items) == Shl32(ShiftIn32(p, items[..|items| - 1]), items[|items| - 1])
  {
  }

  lemma ShiftIn32Snoc(p: bv32, b: seq<bv8>, k: nat)
    requires k < |b|
    ensures ShiftIn32(p, b[..k + 1]) == Shl32(ShiftIn32(p, b[..k]), b[k])
  {
    assert b[..k + 1][..k] == b[..k];
  }

  /** The eight items of an octet shift it into the low end of the register. */
  lemma ShiftIn32Octet(p: bv32, x: bv8)
    ensures ShiftIn32(p, Bits8(x)) == Shl8(p, x)
  {
    var b := Bits8(x);
    assert b[..0] == [];
    ShiftIn32Snoc(p, b, 0);
    ShiftIn32Snoc(p, b, 1);
    ShiftIn32Snoc(p, b, 2);
    ShiftIn32Snoc(p, b, 3);
    ShiftIn32Snoc(p, b, 4);
    ShiftIn32Snoc(p, b, 5);
    ShiftIn32Snoc(p, b, 6);
    ShiftIn32Snoc(p, b, 7);
    assert b[..8] == b;
    ShiftChain32(p, x);
  }

  /** The bit-vector core of ShiftIn32Octet. */
  lemma ShiftChain32(p: bv32, x: bv8)
    ensures Shl32(Shl32(Shl32(Shl32(Shl32(Shl32(Shl32(Shl32(p, (x >> 7) & 1), (x >> 6) & 1), (x >> 5) & 1),
      (x >> 4) & 1), (x >> 3) & 1), (x >> 2) & 1), (x >> 1) & 1), x & 1) == Shl8(p, x)
  {
  }

  /** The items of four octets, octet by octet. */
  lemma OctetItemsFour(o: seq<bv8>)
    requires |o| == 4
    ensures OctetItems(o) == Bits8(o[0]) + Bits8(o[1]) + Bits8(o[2]) + Bits8(o[3])
  {
    assert o == [o[0]] + [o[1]] + [o[2]] + [o[3]];
    OctetItemsAppend([o[0]] + [o[1]] + [o[2]], [o[3]]);
    OctetItemsAppend([o[0]] + [o[1]], [o[2]]);
    OctetItemsAppend([o[0]], [o[1]]);
    OctetItemsOne(o[0]);
    OctetItemsOne(o[1]);
    OctetItemsOne(o[2]);
    OctetItemsOne(o[3]);
  }

  /** Four runs of items shifted in one after the other. */
  lemma ShiftIn32Four(p: bv32, a: seq<bv8>, b: seq<bv8>, c: seq<bv8>, d: seq<bv8>)
    ensures ShiftIn32(p, a + b + c + d) == ShiftIn32(ShiftIn32(ShiftIn32(ShiftIn32(p, a), b), c), d)
  {
    ShiftIn32Append(p, a + b + c, d);
    ShiftIn32Append(p, a + b, c);
    ShiftIn32Append(p, a, b);
  }

  /** A register shifted on by an octet. */
  function Shl8(p: bv32, x: bv8): bv32
  {
    (p << 8) | x as bv32
  }

  /** Four octets shifted in, eight bits at a time, leave their big-endian word. */
  lemma WordChain(p: bv32, o: seq<bv8>)
    requires |o| == 4
    ensures Shl8(Shl8(Shl8(Shl8(p, o[0]), o[1]), o[2]), o[3]) == Word32(o)
  {
  }

  /** The items of four octets leave their big-endian word in the register, whatever it held. */
  lemma ShiftIn32Word(p: bv32, o: seq<bv8>)
    requires |o| == 4
    ensures ShiftIn32(p, OctetItems(o)) == Word32(o)
  {
    OctetItemsFour(o);
    ShiftIn32Four(p, Bits8(o[0]), Bits8(o[1]), Bits8(o[2]), Bits8(o[3]));
    var p1 := Shl8(p, o[0]);
    var p2 := Shl8(p1, o[1]);
    var p3 := Shl8(p2, o[2]);
    ShiftIn32Octet(p, o[0]);
    ShiftIn32Octet(p1, o[1]);
    ShiftIn32Octet(p2, o[2]);
    ShiftIn32Octet(p3, o[3]);
    WordChain(p, o);
  }

  /** No item of an octet carries the flag. */
  lemma {:induction false} OctetItemsUnflagged(bytes: seq<bv8>)
    ensures forall i :: 0 <= i < |OctetItems(bytes)| ==> !SyncFlag(OctetItems(bytes)[i])
    decreases |bytes|
  {
    if |bytes| > 0 {
      OctetItemsUnflagged(bytes[..|bytes| - 1]);
    }
  }

  // ---------------------------------------------------------------------
  // Channel bits through the deframer
  // ---------------------------------------------------------------------

  /** SYNC_SEARCH passes over every item whose flag is clear. */
  lemma {:induction false} SearchSkips(s: FecSink, items: seq<bv8>)
    requires Inv(s) && s.state == SyncSearch
    requires forall i :: 0 <= i < |items| ==> !SyncFlag(items[i])
    ensures Run(s, items) == s
    decreases |items|
  {
    if |items| > 0 {
      SearchSkips(s, items[..|items| - 1]);
      RunSnoc(s, items);
    }
  }

  /** Channel bits that do not complete a block are only shifted in and counted. */
  lemma {:induction false} BitsShiftIn(r: FecSink, items: seq<bv8>)
    requires Inv(r) && r.state == HaveSync && r.bitCnt + |items| < BLOCK_BITS
    ensures Run(r, items) == r.(rfBuf := ShiftIn32(r.rfBuf, items), bitCnt := r.bitCnt + |items|)
    decreases |items|
  {
    if |items| > 0 {
      var n := |items| - 1;
      BitsShiftIn(r, items[..n]);
      RunSnoc(r, items);
      StepRawBit(Run(r, items[..n]), items[n]);
    }
  }

  /** The 32nd channel bit of a block, `a` the register the other 31 left. */
  lemma LastBitOfBlock(r: FecSink, a: bv32, item: bv8)
    requires Inv(r) && r.state == HaveSync
    ensures Step(r.(rfBuf := a, bitCnt := BLOCK_BITS - 1), item)
      == BlockStep(r.(rfBuf := InterleaveU32(Shl32(a, item)), bitCnt := 0))
  {
  }

  /** Up to the bit that completes a block, channel bits are only shifted in and counted. */
  lemma BitsBeforeLast(r: FecSink, items: seq<bv8>)
    requires Inv(r) && r.state == HaveSync && |items| >= 1 && r.bitCnt + |items| == BLOCK_BITS
    ensures var n := |items| - 1;
      Run(r, items) == Step(r.(rfBuf := ShiftIn32(r.rfBuf, items[..n]), bitCnt := BLOCK_BITS - 1), items[n])
  {
    BitsShiftIn(r, items[..|items| - 1]);
    RunSnoc(r, items);
  }

  /** The bit that completes a block has the block de-interleaved and decoded. */
  lemma BitsEndBlock(r: FecSink, items: seq<bv8>)
    requires Inv(r) && r.state == HaveSync && |items| >= 1 && r.bitCnt + |items| == BLOCK_BITS
    ensures Run(r, items) == BlockStep(r.(rfBuf := InterleaveU32(ShiftIn32(r.rfBuf, items)), bitCnt := 0))
  {
    var n := |items| - 1;
    BitsBeforeLast(r, items);
    ShiftIn32Last(r.rfBuf, items);
    LastBitOfBlock(r, ShiftIn32(r.rfBuf, items[..n]), items[n]);
  }

  /** A block of the frame after the first: its symbols in the order they left the encoder. */
  lemma LaterBlockItems(r: FecSink, o: seq<bv8>)
    requires Inv(r) && r.state == HaveSync && r.bitCnt == 0 && r.idx >= 1 && |o| == 4
    ensures var c := InterleaveU32(Word32(o));
      Run(r, OctetItems(o)) == LaterUpTo(r.(rfBuf := c), c, BLOCK_SYMBOLS)
  {
    BitsEndBlock(r, OctetItems(o));
    ShiftIn32Word(r.rfBuf, o);
  }

  /** A flagged item in SYNC_SEARCH synchronises, and the rest runs from there. */
  lemma SyncedRun(s: FecSink, x: bv8, rest: seq<bv8>)
    requires Inv(s) && s.state == SyncSearch && SyncFlag(x)
    ensures Run(s, [x] + rest) == Run(Sync(s, x), rest)
  {
    RunAppend(s, [x], rest);
    RunSnoc(s, [x]);
    assert [x][..0] == [];
  }

  /** The first data bit, then the other 31 of the block, leave the block's word. */
  lemma FirstWord(o: seq<bv8>)
    requires |o| == 4
    ensures var items := OctetItems(o);
      ShiftIn32(DataBit(items[0] | 2) as bv32, items[1..]) == Word32(o)
  {
    var items := OctetItems(o);
    assert DataBit(items[0] | 2) == DataBit(items[0]);
    assert items[..1][..0] == [];
    assert ShiftIn32(0, items[..1]) == DataBit(items[0]) as bv32;
    assert items[..1] + items[1..] == items;
    ShiftIn32Append(0, items[..1], items[1..]);
    ShiftIn32Word(0, o);
  }

  /** The flagged first bit and the rest of the first block: a sync, then the first block. */
  lemma FirstBlockItems(s: FecSink, o: seq<bv8>)
    requires Inv(s) && s.state == SyncSearch && |o| == 4
    ensures var items := OctetItems(o); var x := items[0] | 2;
      Run(s, [x] + items[1..]) == FirstBlockStep(Sync(s, x).(rfBuf := InterleaveU32(Word32(o)), bitCnt := 0))
  {
    var items := OctetItems(o);
    var x := items[0] | 2;
    SyncedRun(s, x, items[1..]);
    BitsEndBlock(Sync(s, x), items[1..]);
    FirstWord(o);
  }

  // ---------------------------------------------------------------------
  // What the buffer holds while a frame comes in
  // ---------------------------------------------------------------------

  /**
   * A verdict the verifier takes as a single fact: a predicate defined
   * through one is proved whole, where a plain conjunction would be split
   * into its conjuncts and each proved against the whole context.
   */
  datatype Check = Pass | Fail

  /** The bits of `frame`, most significant first, begin `bits`. */
  ghost predicate Carries(bits: seq<bool>, frame: seq<bv8>)
  {
    FrameBits(bits, frame) == Pass
  }

  ghost function FrameBits(bits: seq<bool>, frame: seq<bv8>): Check
  {
    if 8 * |frame| <= |bits| && forall k :: 0 <= k < 8 * |frame| ==> bits[k] == BufBit(frame, k) then Pass else Fail
  }

  /** What the buffer ends up holding: the PHR and the de-whitened PSDU. */
  function Stored(w: bv16, psdu: seq<bv8>): (b: seq<bv8>)
    ensures |b| == PHR_LENGTH + |psdu|
  {
    ToOctets(w) + Uncoded.Dewhitened(w, psdu)
  }

  /** The whitening register and the CRC after `k` octets of the PSDU (`data` de-whitened). */
  ghost predicate Registers(r: FecSink, w: bv16, data: seq<bv8>, k: nat)
    requires k <= |data|
  {
    (Dw(w) ==> r.lfsr == Pn9After(PN9_SEED, k)) &&
    (Fcs16(w) ==> r.crc16 == Crc16Over(INITIAL_CRC16, data[..k])) &&
    (!Fcs16(w) ==>
       Uncoded.Crc32Seen(|data|, k) <= k && r.crc32 == Crc32Over(INITIAL_CRC32, data[..Uncoded.Crc32Seen(|data|, k)]))
  }

  /** Registers reads only the whitening register and the CRC registers. */
  lemma RegistersKept(r: FecSink, p: FecSink, w: bv16, data: seq<bv8>, k: nat)
    requires k <= |data| && Registers(r, w, data, k)
    requires p.lfsr == r.lfsr && p.crc16 == r.crc16 && p.crc32 == r.crc32
    ensures Registers(p, w, data, k)
  {
  }

  /**
   * After `t` >= 3 symbols of the frame PHR `w`, PSDU `psdu` whose encoder
   * input is `bits`: the decoder is the reference decoder over them, the
   * octets completed are the stored ones, the bits of the octet in progress
   * are the frame's, and once the PHR is read the end is set and the
   * registers have run over the PSDU octets completed.
   */
  ghost predicate Decoding(r: FecSink, w: bv16, psdu: seq<bv8>, bits: seq<bool>, t: nat)
  {
    Placed(r, psdu) && DecodedTo(r, bits, t) && Held(r, w, psdu, bits) && Header(r, w, psdu)
  }

  /** The index and the mask inside the buffer, the index inside the frame. */
  ghost predicate Placed(r: FecSink, psdu: seq<bv8>)
  {
    |r.buf| == BUF_SIZE && 0 <= r.bit < 8 && 1 <= r.idx <= PHR_LENGTH + |psdu| && r.idx < BUF_SIZE
  }

  /** After `t` symbols the decoder is the reference one, and `t` - 3 bits are pushed. */
  ghost predicate DecodedTo(r: FecSink, bits: seq<bool>, t: nat)
  {
    3 <= t <= |bits| && Pos(r) == t - 3 && r.dec == DecoderAfter(Encode(bits), t)
  }

  /** The octets completed are the stored ones, and the bits of the one in progress are the frame's. */
  ghost predicate Held(r: FecSink, w: bv16, psdu: seq<bv8>, bits: seq<bool>)
  {
    Placed(r, psdu) && Pos(r) <= |bits| &&
    r.buf[..r.idx] == Stored(w, psdu)[..r.idx] &&
    forall k :: 8 * r.idx <= k < Pos(r) ==> BufBit(r.buf, k) == bits[k]
  }

  /** Before the PHR is read at most its octets are in; afterwards the end is set and the registers kept. */
  ghost predicate Header(r: FecSink, w: bv16, psdu: seq<bv8>)
  {
    (r.stop == NO_STOP ==> r.idx <= PHR_LENGTH) &&
    (r.stop != NO_STOP ==>
       PHR_LENGTH <= r.idx <= PHR_LENGTH + |psdu| && r.phr == w && r.stop == PHR_LENGTH + |psdu| &&
       Registers(r, w, Uncoded.Dewhitened(w, psdu), r.idx - PHR_LENGTH))
  }

  /** Decoding between symbols, inside the frame. */
  ghost predicate Coded(r: FecSink, w: bv16, psdu: seq<bv8>, bits: seq<bool>, t: nat, q: seq<Message>)
  {
    Inv(r) && r.state == HaveSync && r.queue == q && Decoding(r, w, psdu, bits, t)
  }

  /** The verdict the FEC deframer reaches on the frame received intact. */
  ghost function FecCrcOk(w: bv16, data: seq<bv8>): bool
  {
    if Fcs16(w) then Crc16Over(INITIAL_CRC16, data) == 0
    else
      var seen := Uncoded.Crc32Seen(|data|, |data|);
      seen <= |data| &&
      FecCrc32Verdict(Crc32Over(INITIAL_CRC32, data[..seen]), ToOctets(w) + data, PHR_LENGTH + |data|).1
  }

  /** The frame delivered: one record more, and the search resumes. */
  ghost predicate Delivered(r: FecSink, w: bv16, psdu: seq<bv8>, q: seq<Message>)
  {
    var data := Uncoded.Dewhitened(w, psdu);
    Inv(r) && r.state == SyncSearch && r.queue == q + [Message(1, w, FecCrcOk(w, data), data)]
  }

  /** Bits pushed when the frame is delivered: at the end of the PSDU, or one past the PHR if it is empty. */
  function DeliveredAt(n: nat): nat
  {
    if n == 0 then 8 * PHR_LENGTH + 1 else 8 * (PHR_LENGTH + n)
  }

  /** Where the reception of a frame stands: under way, handed on, or off the frame's course. */
  datatype Stage = InFrame | Handed | Astray

  /**
   * After `t` symbols of the frame: decoding goes on while the bits pushed,
   * `t` - 3, are short of DeliveredAt; from there on the frame is delivered.
   */
  ghost function StageAfter(x: FecSink, w: bv16, psdu: seq<bv8>, bits: seq<bool>, t: nat, q: seq<Message>): Stage
  {
    if t - 3 < DeliveredAt(|psdu|) then (if Coded(x, w, psdu, bits, t, q) then InFrame else Astray)
    else if Delivered(x, w, psdu, q) then Handed
    else Astray
  }

  /** The frame's reception is on course after `t` symbols. */
  ghost predicate Received(x: FecSink, w: bv16, psdu: seq<bv8>, bits: seq<bool>, t: nat, q: seq<Message>)
  {
    StageAfter(x, w, psdu, bits, t, q) != Astray
  }

  /** Short of DeliveredAt, reception on course means decoding. */
  lemma Underway(x: FecSink, w: bv16, psdu: seq<bv8>, bits: seq<bool>, t: nat, q: seq<Message>)
    requires Received(x, w, psdu, bits, t, q) && t - 3 < DeliveredAt(|psdu|)
    ensures Coded(x, w, psdu, bits, t, q)
  {
  }

  // ---------------------------------------------------------------------
  // One symbol
  // ---------------------------------------------------------------------

  /** Decoding the next symbol: the reference decoder moves on, and the bit it decides is the frame's. */
  lemma PushDecodes(r: FecSink, bits: seq<bool>, t: nat)
    requires DecodedTo(r, bits, t) && t < |bits| && |r.buf| == BUF_SIZE && 0 <= r.idx < BUF_SIZE && 0 <= r.bit < 8
    ensures DecodedTo(PushSymbol(r, Encode(bits)[t]), bits, t + 1)
    ensures DecidedBit(DecodeUi(r.dec, Encode(bits)[t])) == bits[Pos(r)]
  {
    DecodedBitAt(bits, t);
  }

  /** A bit that leaves the octet incomplete moves only the mask and the buffer. */
  lemma InOctetFields(r: FecSink, u: bv8)
    requires |r.buf| == BUF_SIZE && 0 <= r.idx < BUF_SIZE && 0 <= r.bit < 7
    ensures var p := PushSymbol(r, u);
      p.buf == Push(DecodeStep(r, u)).buf && p.idx == r.idx && p.bit == r.bit + 1 && p.phr == r.phr &&
      p.stop == r.stop && p.lfsr == r.lfsr && p.crc16 == r.crc16 && p.crc32 == r.crc32
  {
  }

  /** A pushed bit that leaves the octet incomplete joins the bits in progress. */
  lemma HeldInOctet(r: FecSink, p: FecSink, u: bv8, w: bv16, psdu: seq<bv8>, bits: seq<bool>)
    requires Held(r, w, psdu, bits) && r.bit < 7 && Pos(r) < |bits|
    requires DecidedBit(DecodeUi(r.dec, u)) == bits[Pos(r)]
    requires p.buf == Push(DecodeStep(r, u)).buf && p.idx == r.idx && p.bit == r.bit + 1
    ensures Held(p, w, psdu, bits)
  {
    PushWrites(DecodeStep(r, u));
    assert p.buf[..r.idx] == r.buf[..r.idx];
  }

  /** The header facts survive a step that keeps the index, the end and the registers. */
  lemma HeaderKept(r: FecSink, p: FecSink, w: bv16, psdu: seq<bv8>)
    requires Header(r, w, psdu)
    requires p.idx == r.idx && p.stop == r.stop && p.phr == r.phr
    requires p.lfsr == r.lfsr && p.crc16 == r.crc16 && p.crc32 == r.crc32
    ensures Header(p, w, psdu)
  {
    if r.stop != NO_STOP {
      RegistersKept(r, p, w, Uncoded.Dewhitened(w, psdu), r.idx - PHR_LENGTH);
    }
  }

  /** A pushed bit that leaves the octet incomplete. */
  lemma PushInOctet(r: FecSink, w: bv16, psdu: seq<bv8>, bits: seq<bool>, t: nat)
    requires Inv(r) && r.state == HaveSync && Decoding(r, w, psdu, bits, t) && t < |bits| && r.bit < 7
    ensures var p := PushSymbol(r, Encode(bits)[t]);
      Decoding(p, w, psdu, bits, t + 1) && p.idx == r.idx && p.bit == r.bit + 1
  {
    var u := Encode(bits)[t];
    var p := PushSymbol(r, u);
    PushDecodes(r, bits, t);
    InOctetFields(r, u);
    HeldInOctet(r, p, u, w, psdu, bits);
    HeaderKept(r, p, w, psdu);
  }

  /** The last bit of an octet in the frame completes the frame's octet. */
  lemma OctetCompleted(r: FecSink, u: bv8, w: bv16, psdu: seq<bv8>, bits: seq<bool>)
    requires Held(r, w, psdu, bits) && r.bit == 7 && r.idx < PHR_LENGTH + |psdu|
    requires Carries(bits, ToOctets(w) + psdu) && DecidedBit(DecodeUi(r.dec, u)) == bits[Pos(r)]
    ensures var b := WriteBit(DecodeStep(r, u)).buf;
      b[r.idx] == (ToOctets(w) + psdu)[r.idx] && b == r.buf[r.idx := b[r.idx]]
  {
    var frame := ToOctets(w) + psdu;
    var d := DecodeStep(r, u);
    var b := WriteBit(d).buf;
    forall k | 8 * r.idx <= k < 8 * r.idx + 8
      ensures BufBit(b, k) == BufBit(frame, k)
    {
      WrittenBit(d.buf, r.idx, 7, DecidedBit(d.dec), k);
    }
    OctetOfBits(b, frame, r.idx);
  }

  /** The second octet completed before the PHR is read: only the mask, the index and the buffer move. */
  lemma PhrOctetFields(r: FecSink, u: bv8)
    requires |r.buf| == BUF_SIZE && 0 <= r.idx < BUF_SIZE && r.bit == 7 && r.stop == NO_STOP
    ensures var p := PushSymbol(r, u);
      p.buf == WriteBit(DecodeStep(r, u)).buf && p.idx == r.idx + 1 && p.bit == 0 && p.stop == NO_STOP
  {
  }

  /** The second octet completed: the PHR is in the buffer. */
  lemma HeldPhrOctet(r: FecSink, p: FecSink, u: bv8, w: bv16, psdu: seq<bv8>, bits: seq<bool>)
    requires Held(r, w, psdu, bits) && r.bit == 7 && r.idx == 1 && Pos(r) < |bits|
    requires Carries(bits, ToOctets(w) + psdu) && DecidedBit(DecodeUi(r.dec, u)) == bits[Pos(r)]
    requires p.buf == WriteBit(DecodeStep(r, u)).buf && p.idx == PHR_LENGTH && p.bit == 0
    ensures Held(p, w, psdu, bits)
  {
    OctetCompleted(r, u, w, psdu, bits);
    assert p.buf[..2] == Stored(w, psdu)[..2];
  }

  /** The second octet completed: the PHR is in the buffer. */
  lemma PushPhrOctet(r: FecSink, w: bv16, psdu: seq<bv8>, bits: seq<bool>, t: nat)
    requires Inv(r) && r.state == HaveSync && Decoding(r, w, psdu, bits, t) && t < |bits|
    requires r.bit == 7 && r.stop == NO_STOP && Carries(bits, ToOctets(w) + psdu)
    ensures var p := PushSymbol(r, Encode(bits)[t]);
      Decoding(p, w, psdu, bits, t + 1) && p.idx == PHR_LENGTH && p.bit == 0
  {
    var u := Encode(bits)[t];
    var p := PushSymbol(r, u);
    PushDecodes(r, bits, t);
    PhrOctetFields(r, u);
    HeldPhrOctet(r, p, u, w, psdu, bits);
  }

  /** A completed PSDU octet: de-whitened and stored, the registers moved on by it. */
  lemma PsduOctetEffect(r: FecSink, u: bv8, w: bv16, psdu: seq<bv8>, bits: seq<bool>)
    requires Held(r, w, psdu, bits) && Header(r, w, psdu) && r.bit == 7 && r.stop != NO_STOP
    requires r.idx < PHR_LENGTH + |psdu| && Carries(bits, ToOctets(w) + psdu)
    requires DecidedBit(DecodeUi(r.dec, u)) == bits[Pos(r)]
    ensures var p := PushSymbol(r, u); var k := r.idx - PHR_LENGTH; var x := Uncoded.Dewhitened(w, psdu)[k];
      p.buf == r.buf[r.idx := x] && p.idx == r.idx + 1 && p.bit == 0 && p.phr == r.phr && p.stop == r.stop &&
      p.lfsr == (if Dw(w) then GetPn9Byte(r.lfsr).1 else r.lfsr) &&
      p.crc16 == (if Fcs16(w) then CrcMsbFirst(r.crc16, x) else r.crc16) &&
      p.crc32 == (if !Fcs16(w) && r.idx < r.stop - 4 then UpdateCrc32(r.crc32, x) else r.crc32)
  {
    var k := r.idx - PHR_LENGTH;
    OctetCompleted(r, u, w, psdu, bits);
    Uncoded.DewhitenedAt(w, psdu, k);
  }

  /** The stored octets grow by the de-whitened one. */
  lemma HeldPsduOctet(r: FecSink, p: FecSink, w: bv16, psdu: seq<bv8>, bits: seq<bool>)
    requires Held(r, w, psdu, bits) && r.bit == 7 && r.idx < PHR_LENGTH + |psdu| && PHR_LENGTH <= r.idx
    requires Pos(r) < |bits| && |p.buf| == BUF_SIZE && p.idx < BUF_SIZE
    requires p.buf == r.buf[r.idx := Uncoded.Dewhitened(w, psdu)[r.idx - PHR_LENGTH]] && p.idx == r.idx + 1 && p.bit == 0
    ensures Held(p, w, psdu, bits)
  {
    var stored := Stored(w, psdu);
    assert stored[..p.idx] == stored[..r.idx] + [stored[r.idx]];
    assert p.buf[..p.idx] == r.buf[..r.idx] + [p.buf[r.idx]];
  }

  /** The registers after one more PSDU octet. */
  lemma RegistersAdvance(r: FecSink, p: FecSink, w: bv16, data: seq<bv8>, k: nat)
    requires k < |data| && Registers(r, w, data, k) && r.stop - 4 == PHR_LENGTH + |data| - 4
    requires p.lfsr == (if Dw(w) then GetPn9Byte(r.lfsr).1 else r.lfsr)
    requires p.crc16 == (if Fcs16(w) then CrcMsbFirst(r.crc16, data[k]) else r.crc16)
    requires p.crc32 == (if !Fcs16(w) && PHR_LENGTH + k < r.stop - 4 then UpdateCrc32(r.crc32, data[k]) else r.crc32)
    ensures Registers(p, w, data, k + 1)
  {
    Pn9KeystreamSnoc(PN9_SEED, k);
    if Fcs16(w) {
      Uncoded.Crc16Grows(r.crc16, data, k);
    } else if k < |data| - 4 {
      Uncoded.Crc32Grows(r.crc32, data, k);
      assert Uncoded.Crc32Seen(|data|, k + 1) == k + 1;
    } else {
      assert Uncoded.Crc32Seen(|data|, k + 1) == Uncoded.Crc32Seen(|data|, k);
    }
  }

  /** The header facts after one more PSDU octet. */
  lemma HeaderAdvance(r: FecSink, p: FecSink, w: bv16, psdu: seq<bv8>)
    requires Header(r, w, psdu) && r.stop != NO_STOP && r.idx < PHR_LENGTH + |psdu|
    requires p.idx == r.idx + 1 && p.stop == r.stop && p.phr == r.phr
    requires var x := Uncoded.Dewhitened(w, psdu)[r.idx - PHR_LENGTH];
      p.lfsr == (if Dw(w) then GetPn9Byte(r.lfsr).1 else r.lfsr) &&
      p.crc16 == (if Fcs16(w) then CrcMsbFirst(r.crc16, x) else r.crc16) &&
      p.crc32 == (if !Fcs16(w) && r.idx < r.stop - 4 then UpdateCrc32(r.crc32, x) else r.crc32)
    ensures Header(p, w, psdu)
  {
    RegistersAdvance(r, p, w, Uncoded.Dewhitened(w, psdu), r.idx - PHR_LENGTH);
  }

  /** A PSDU octet completed: de-whitened, stored, and run through the CRC. */
  lemma PushPsduOctet(r: FecSink, w: bv16, psdu: seq<bv8>, bits: seq<bool>, t: nat)
    requires Inv(r) && r.state == HaveSync && Decoding(r, w, psdu, bits, t) && t < |bits|
    requires r.bit == 7 && r.stop != NO_STOP && Carries(bits, ToOctets(w) + psdu)
    ensures var p := PushSymbol(r, Encode(bits)[t]);
      Decoding(p, w, psdu, bits, t + 1) && p.idx == r.idx + 1 && p.bit == 0
  {
    var u := Encode(bits)[t];
    var data := Uncoded.Dewhitened(w, psdu);
    PushDecodes(r, bits, t);
    PsduOctetEffect(r, u, w, psdu, bits);
    var p := PushSymbol(r, u);
    HeldPsduOctet(r, p, w, psdu, bits);
    HeaderAdvance(r, p, w, psdu);
  }

  /** The PHR read: it is `w`, and the end and the registers are set for its PSDU. */
  lemma ReadPhrCoded(p: FecSink, w: bv16, psdu: seq<bv8>, bits: seq<bool>, t: nat)
    requires p.state == HaveSync && 0 <= p.bitCnt < BLOCK_BITS && Decoding(p, w, psdu, bits, t)
    requires p.stop == NO_STOP && p.idx == PHR_LENGTH && p.bit == 0 && |psdu| == FrameLength(w)
    ensures Coded(ReadPhr(p), w, psdu, bits, t, p.queue) && Pos(ReadPhr(p)) == 8 * PHR_LENGTH
  {
    assert p.buf[0] == Stored(w, psdu)[..2][0] && p.buf[1] == Stored(w, psdu)[..2][1];
    OctetsRoundTrip(w);
    var data := Uncoded.Dewhitened(w, psdu);
    assert data[..0] == [];
  }

  /** The end reached: the record holds `w`, the de-whitened PSDU and FecCrcOk. */
  lemma DeliverCoded(p: FecSink, w: bv16, psdu: seq<bv8>, bits: seq<bool>, t: nat)
    requires p.state == HaveSync && Decoding(p, w, psdu, bits, t)
    requires p.stop != NO_STOP && p.idx == PHR_LENGTH + |psdu|
    ensures Delivered(Deliver(p), w, psdu, p.queue)
  {
    var data := Uncoded.Dewhitened(w, psdu);
    assert p.buf[..p.idx] == ToOctets(w) + data;
    assert p.buf[PHR_LENGTH..p.idx] == data;
    assert data[..|data|] == data;
    FecVerdictOnPrefix(p.crc32, p.buf, ToOctets(w) + data, p.idx);
  }

  /** A symbol whose bit leaves the octet incomplete, the PHR not yet read. */
  lemma SymbolBeforePhr(r: FecSink, w: bv16, psdu: seq<bv8>, bits: seq<bool>, t: nat, q: seq<Message>)
    requires Coded(r, w, psdu, bits, t, q) && t < |bits| && r.bit < 7 && r.stop == NO_STOP
    ensures Received(LaterSymbol(r, Encode(bits)[t]), w, psdu, bits, t + 1, q)
  {
    var u := Encode(bits)[t];
    PushInOctet(r, w, psdu, bits, t);
    var p := PushSymbol(r, u);
    assert LaterSymbol(r, u) == CheckStop(p) == p;
    assert t + 1 - 3 < DeliveredAt(|psdu|);
  }

  /** A symbol whose bit leaves the octet incomplete, the PHR read: only an empty PSDU ends here. */
  lemma SymbolInPsdu(r: FecSink, w: bv16, psdu: seq<bv8>, bits: seq<bool>, t: nat, q: seq<Message>)
    requires Coded(r, w, psdu, bits, t, q) && t < |bits| && r.bit < 7 && r.stop != NO_STOP
    ensures Received(LaterSymbol(r, Encode(bits)[t]), w, psdu, bits, t + 1, q)
  {
    var u := Encode(bits)[t];
    PushInOctet(r, w, psdu, bits, t);
    var p := PushSymbol(r, u);
    assert LaterSymbol(r, u) == CheckStop(p);
    if r.idx >= r.stop {
      assert |psdu| == 0 && t + 1 - 3 == DeliveredAt(0);
      DeliverCoded(p, w, psdu, bits, t + 1);
    } else {
      assert CheckStop(p) == p;
      assert t + 1 - 3 < 8 * (r.idx + 1) <= DeliveredAt(|psdu|);
    }
  }

  /** The symbol that completes the PHR: it is read. */
  lemma SymbolEndsPhr(r: FecSink, w: bv16, psdu: seq<bv8>, bits: seq<bool>, t: nat, q: seq<Message>)
    requires Coded(r, w, psdu, bits, t, q) && t < |bits| && r.bit == 7 && r.stop == NO_STOP
    requires |psdu| == FrameLength(w) && Carries(bits, ToOctets(w) + psdu)
    ensures Received(LaterSymbol(r, Encode(bits)[t]), w, psdu, bits, t + 1, q)
  {
    var u := Encode(bits)[t];
    PushPhrOctet(r, w, psdu, bits, t);
    var p := PushSymbol(r, u);
    assert LaterSymbol(r, u) == CheckStop(p) == ReadPhr(p);
    ReadPhrCoded(p, w, psdu, bits, t + 1);
    assert t + 1 - 3 < DeliveredAt(|psdu|);
  }

  /** After a push past the PHR, the end reached delivers the frame, and otherwise decoding goes on. */
  lemma StopChecked(p: FecSink, w: bv16, psdu: seq<bv8>, bits: seq<bool>, t: nat)
    requires |p.buf| == BUF_SIZE && p.state == HaveSync && Pushed(p) && 0 <= p.bitCnt < BLOCK_BITS
    requires Decoding(p, w, psdu, bits, t + 1) && p.stop != NO_STOP
    requires (p.idx >= p.stop) == !(t + 1 - 3 < DeliveredAt(|psdu|))
    ensures Received(CheckStop(p), w, psdu, bits, t + 1, p.queue)
  {
    if p.idx >= p.stop {
      DeliverCoded(p, w, psdu, bits, t + 1);
    }
  }

  /** A completed PSDU octet reaches the end exactly when the bits pushed reach DeliveredAt. */
  lemma OctetEndsAt(r: FecSink, p: FecSink, n: nat, t: int)
    requires PHR_LENGTH <= r.idx < r.stop == PHR_LENGTH + n && r.bit == 7
    requires p.idx == r.idx + 1 && p.bit == 0 && p.stop == r.stop && Pos(p) == t - 2
    ensures (p.idx >= p.stop) == !(t + 1 - 3 < DeliveredAt(n))
  {
  }

  /** The symbol that completes a PSDU octet: the last one delivers the frame. */
  lemma SymbolEndsOctet(r: FecSink, w: bv16, psdu: seq<bv8>, bits: seq<bool>, t: nat, q: seq<Message>)
    requires Coded(r, w, psdu, bits, t, q) && t < |bits| && r.bit == 7 && r.stop != NO_STOP
    requires Carries(bits, ToOctets(w) + psdu)
    ensures Received(LaterSymbol(r, Encode(bits)[t]), w, psdu, bits, t + 1, q)
  {
    var u := Encode(bits)[t];
    var p := PushSymbol(r, u);
    PushPsduOctet(r, w, psdu, bits, t);
    PushedAfterSymbol(r, u);
    OctetEndsAt(r, p, |psdu|, t);
    assert LaterSymbol(r, u) == CheckStop(p);
    StopChecked(p, w, psdu, bits, t);
  }

  /**
   * One symbol of a later block: the frame is delivered exactly when the
   * bits pushed reach DeliveredAt, and until then decoding goes on.
   */
  lemma CodedSymbol(r: FecSink, u: bv8, w: bv16, psdu: seq<bv8>, bits: seq<bool>, t: nat, q: seq<Message>)
    requires Received(r, w, psdu, bits, t, q) && t - 3 < DeliveredAt(|psdu|) && t < |bits| && u == Encode(bits)[t]
    requires |psdu| == FrameLength(w) && Carries(bits, ToOctets(w) + psdu)
    ensures Inv(r) && r.state == HaveSync && r.idx >= 1
    ensures Received(LaterSymbol(r, u), w, psdu, bits, t + 1, q)
  {
    Underway(r, w, psdu, bits, t, q);
    if r.bit < 7 && r.stop == NO_STOP {
      SymbolBeforePhr(r, w, psdu, bits, t, q);
    } else if r.bit < 7 {
      SymbolInPsdu(r, w, psdu, bits, t, q);
    } else if r.stop == NO_STOP {
      SymbolEndsPhr(r, w, psdu, bits, t, q);
    } else {
      SymbolEndsOctet(r, w, psdu, bits, t, q);
    }
  }
}
