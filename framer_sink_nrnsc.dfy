/**
 * The FEC MR-FSK deframer of lib/framer_sink_mrfsk_nrnsc_impl.cc.
 *
 * It reads one item per received channel bit (see Frame.DataBit /
 * Frame.SyncFlag). The flagged item starts a frame; from then on every 32
 * channel bits form an interleaving block, which is de-interleaved and read as
 * sixteen two-bit symbols. Each symbol goes through the NRNSC decoder (module
 * Nrnsc) and, from the fourth symbol of the frame on, the decided bit is pushed
 * MSB first into the PHR-and-PSDU buffer. Once two octets are in, the PHR gives
 * the frame length; PSDU octets are de-whitened and fed to the CRC as they
 * complete, and when the last one is in a type-1 record is queued.
 *
 * `FecSink` is the value of the fields the C++ object updates, `Step` the
 * effect of one item on them; the class `FecFramerSink` updates its fields and
 * its two arrays in place with the loops of `work` and is proved to do what
 * `Run` says.
 */
module FramerSinkNrnsc {
  import opened Primitives
  import opened Phr
  import opened Frame
  import opened Folds
  import opened Nrnsc
  import opened Bits

  /** Vote counters of the decoder. */
  const NUM_WEIGHTS: nat := 4

  /** `phr_psdu_buf`: room for the PHR and the longest PSDU. */
  const BUF_SIZE: nat := 2050

  /** `phr_psdu_buf_idx_stop` while the PHR is still unknown. */
  const NO_STOP: int := -1

  /** Channel bits per interleaving block. */
  const BLOCK_BITS: int := 32

  /** Two-bit symbols per interleaving block. */
  const BLOCK_SYMBOLS: nat := 16

  datatype FecState = SyncSearch | HaveSync

  /**
   * The deframer's fields; `buf` is the whole `phr_psdu_buf`, stale octets
   * included. The one-bit mask `db_bp` is held as `bit`, the number of bits
   * of the current octet already written: the mask is Mask(`bit`).
   */
  datatype FecSink = FecSink(
    state: FecState,
    rfBuf: bv32,
    bitCnt: int,
    dec: Decoder,
    buf: seq<bv8>,
    idx: int,
    stop: int,
    bit: int,
    phr: bv16,
    crc16: bv16,
    crc32: bv32,
    lfsr: bv16,
    queue: seq<Message>)

  /** Bits pushed since the start of the buffer. */
  function Pos(s: FecSink): int
  {
    8 * s.idx + s.bit
  }

  /**
   * Between blocks of a frame: before the PHR is known at most one octet is
   * in (none only before the first block); afterwards the end lies inside
   * the buffer and the index has not passed it (it only stands on it when the
   * PHR announced an empty PSDU).
   */
  predicate RxOk(s: FecSink)
  {
    0 <= s.bit < 8 &&
    if s.stop == NO_STOP then
      (s.idx == 0 && s.bit == 0) || s.idx == 1
    else
      PHR_LENGTH <= s.idx <= s.stop < BUF_SIZE &&
      (s.idx == s.stop ==> s.idx == PHR_LENGTH && s.bit == 0)
  }

  /** Just after a bit is pushed in a later block, before the end is checked. */
  predicate Pushed(s: FecSink)
  {
    0 <= s.bit < 8 &&
    if s.stop == NO_STOP then
      1 <= s.idx <= PHR_LENGTH && (s.idx == PHR_LENGTH ==> s.bit == 0)
    else
      PHR_LENGTH <= s.idx <= s.stop < BUF_SIZE
  }

  /** What holds between items: the buffer has its size, and inside a frame RxOk holds. */
  ghost predicate Inv(s: FecSink)
  {
    |s.buf| == BUF_SIZE && (s.state == HaveSync ==> 0 <= s.bitCnt < BLOCK_BITS && RxOk(s))
  }

  // ---------------------------------------------------------------------
  // One item
  // ---------------------------------------------------------------------

  /** The effect of one input item. */
  function Step(s: FecSink, item: bv8): (r: FecSink)
    requires Inv(s)
    ensures Inv(r)
  {
    match s.state
    case SyncSearch => if SyncFlag(item) then Sync(s, item) else s
    case HaveSync => RawBit(s, item)
  }

  /** The flagged item: its bit starts the first block, the counters are cleared, the buffer restarts. */
  function Sync(s: FecSink, item: bv8): (r: FecSink)
    requires |s.buf| == BUF_SIZE
    ensures Inv(r) && r.state == HaveSync && r.idx == 0 && r.stop == NO_STOP && r.queue == s.queue
  {
    s.(state := HaveSync, rfBuf := DataBit(item) as bv32, bitCnt := 1, dec := Cleared(s.dec),
       idx := 0, bit := 0, stop := NO_STOP)
  }

  /** `rf_buf` shifted by one channel bit. */
  function Shl32(v: bv32, item: bv8): bv32 { (v << 1) | DataBit(item) as bv32 }

  /** One channel bit: shifted into `rf_buf` and counted. */
  function RawBit(s: FecSink, item: bv8): (r: FecSink)
    requires Inv(s) && s.state == HaveSync
    ensures Inv(r)
  {
    BlockEnd(s.(rfBuf := Shl32(s.rfBuf, item), bitCnt := s.bitCnt + 1))
  }

  /** After a channel bit: the 32nd of a block has the block de-interleaved and decoded. */
  function BlockEnd(s: FecSink): (r: FecSink)
    requires |s.buf| == BUF_SIZE && s.state == HaveSync && 0 < s.bitCnt <= BLOCK_BITS && RxOk(s)
    ensures Inv(r)
  {
    if s.bitCnt == BLOCK_BITS then BlockStep(s.(rfBuf := InterleaveU32(s.rfBuf), bitCnt := 0)) else s
  }

  /** A de-interleaved block in `rfBuf`: the first of the frame is handled apart. */
  function BlockStep(s: FecSink): (r: FecSink)
    requires Inv(s) && s.state == HaveSync
    ensures Inv(r) && r.bitCnt == s.bitCnt
  {
    if s.idx == 0 then FirstBlockStep(s) else LaterUpTo(s, s.rfBuf, BLOCK_SYMBOLS)
  }

  /**
   * Symbol `j` of a block (0 first on the air): the two bits below the `j`
   * symbols before it, i.e. bits 31 - 2`j` and 30 - 2`j` of the word.
   */
  function Sym(w: bv32, j: nat): (u: bv8)
    requires j < BLOCK_SYMBOLS
    ensures u < 4
    decreases j
  {
    if j == 0 then (w >> 30) as bv8 else Sym(w << 2, j - 1)
  }

  /** Sym reads the block's symbols where the code does: symbol `j` is `(w >> s) & 3` with `s` = 30 - 2`j`. */
  lemma SymIsField(w: bv32)
    ensures Sym(w, 0) == ((w >> 30) & 3) as bv8
    ensures Sym(w, 1) == ((w >> 28) & 3) as bv8
    ensures Sym(w, 2) == ((w >> 26) & 3) as bv8
    ensures Sym(w, 3) == ((w >> 24) & 3) as bv8
    ensures Sym(w, 4) == ((w >> 22) & 3) as bv8
    ensures Sym(w, 5) == ((w >> 20) & 3) as bv8
    ensures Sym(w, 6) == ((w >> 18) & 3) as bv8
    ensures Sym(w, 7) == ((w >> 16) & 3) as bv8
    ensures Sym(w, 8) == ((w >> 14) & 3) as bv8
    ensures Sym(w, 9) == ((w >> 12) & 3) as bv8
    ensures Sym(w, 10) == ((w >> 10) & 3) as bv8
    ensures Sym(w, 11) == ((w >> 8) & 3) as bv8
    ensures Sym(w, 12) == ((w >> 6) & 3) as bv8
    ensures Sym(w, 13) == ((w >> 4) & 3) as bv8
    ensures Sym(w, 14) == ((w >> 2) & 3) as bv8
    ensures Sym(w, 15) == ((w >> 0) & 3) as bv8
  {
    // Symbol 15 unfolded one shift at a time; the terms met on the way unfold the lower symbols.
    assert Sym(w, 15)
        == Sym(w << 2, 14)
        == Sym((w << 2) << 2, 13)
        == Sym(((w << 2) << 2) << 2, 12)
        == Sym((((w << 2) << 2) << 2) << 2, 11)
        == Sym(((((w << 2) << 2) << 2) << 2) << 2, 10)
        == Sym((((((w << 2) << 2) << 2) << 2) << 2) << 2, 9)
        == Sym(((((((w << 2) << 2) << 2) << 2) << 2) << 2) << 2, 8)
        == Sym((((((((w << 2) << 2) << 2) << 2) << 2) << 2) << 2) << 2, 7)
        == Sym(((((((((w << 2) << 2) << 2) << 2) << 2) << 2) << 2) << 2) << 2, 6)
        == Sym((((((((((w << 2) << 2) << 2) << 2) << 2) << 2) << 2) << 2) << 2) << 2, 5)
        == Sym(((((((((((w << 2) << 2) << 2) << 2) << 2) << 2) << 2) << 2) << 2) << 2) << 2, 4)
        == Sym((((((((((((w << 2) << 2) << 2) << 2) << 2) << 2) << 2) << 2) << 2) << 2) << 2) << 2, 3)
        == Sym(((((((((((((w << 2) << 2) << 2) << 2) << 2) << 2) << 2) << 2) << 2) << 2) << 2) << 2) << 2, 2)
        == Sym((((((((((((((w << 2) << 2) << 2) << 2) << 2) << 2) << 2) << 2) << 2) << 2) << 2) << 2) << 2) << 2, 1)
        == Sym(((((((((((((((w << 2) << 2) << 2) << 2) << 2) << 2) << 2) << 2) << 2) << 2) << 2) << 2) << 2) << 2) << 2, 0);
  }

  /** The decoder takes a symbol. */
  function DecodeStep(s: FecSink, u: bv8): (r: FecSink)
    ensures r == s.(dec := DecodeUi(s.dec, u))
  {
    s.(dec := DecodeUi(s.dec, u))
  }

  /** The counters shift. */
  function Shift(s: FecSink): (r: FecSink)
    ensures r == s.(dec := ShiftWeights(s.dec))
  {
    s.(dec := ShiftWeights(s.dec))
  }

  /**
   * `push_bit`: the decided bit set or cleared under the mask, which moves on;
   * when an octet is complete the mask restarts, the octet (once the PHR is
   * known) is de-whitened and fed to the CRC, and the index moves on.
   */
  function Push(s: FecSink): (r: FecSink)
    requires |s.buf| == BUF_SIZE && 0 <= s.idx < BUF_SIZE && 0 <= s.bit < 8
    ensures 0 <= r.bit < 8 && Pos(r) == Pos(s) + 1 && |r.buf| == BUF_SIZE
    ensures r.state == s.state && r.rfBuf == s.rfBuf && r.bitCnt == s.bitCnt && r.dec == s.dec
    ensures r.stop == s.stop && r.phr == s.phr && r.queue == s.queue
  {
    NextMask(WriteBit(s))
  }

  /** The decided bit written into the current octet under the mask. */
  function WriteBit(s: FecSink): (r: FecSink)
    requires 0 <= s.idx < |s.buf| && 0 <= s.bit < 8
    ensures r == s.(buf := r.buf) && |r.buf| == |s.buf|
  {
    s.(buf := s.buf[s.idx := SetBit(s.buf[s.idx], Mask(s.bit), DecidedBit(s.dec))])
  }

  /** The mask moves one bit down; past the last bit the octet is complete. */
  function NextMask(s: FecSink): (r: FecSink)
    requires 0 <= s.idx < |s.buf| && 0 <= s.bit < 8
    ensures r == s.(bit := r.bit, idx := r.idx, buf := r.buf, lfsr := r.lfsr, crc16 := r.crc16, crc32 := r.crc32)
    ensures r.bit == (if s.bit == 7 then 0 else s.bit + 1)
    ensures r.idx == (if s.bit == 7 then s.idx + 1 else s.idx)
    ensures |r.buf| == |s.buf|
  {
    if s.bit < 7 then s.(bit := s.bit + 1) else NextOctet(s.(bit := 0))
  }

  /** A completed octet: absorbed once the PHR is known, and the index moves on. */
  function NextOctet(s: FecSink): (r: FecSink)
    requires 0 <= s.idx < |s.buf|
    ensures r == s.(idx := s.idx + 1, buf := r.buf, lfsr := r.lfsr, crc16 := r.crc16, crc32 := r.crc32)
    ensures |r.buf| == |s.buf|
  {
    var t := if s.stop != NO_STOP then FeedCrc(Dewhiten(s)) else s;
    t.(idx := t.idx + 1)
  }

  /** An octet XORed with a whitening byte. */
  function Unwhiten(b: bv8, pn: bv8): bv8 { b ^ pn }

  /** The completed octet XORed with the next whitening byte, if DW. */
  function Dewhiten(s: FecSink): (r: FecSink)
    requires 0 <= s.idx < |s.buf|
    ensures r == s.(buf := r.buf, lfsr := r.lfsr)
    ensures |r.buf| == |s.buf|
  {
    if Dw(s.phr) then
      s.(buf := s.buf[s.idx := Unwhiten(s.buf[s.idx], GetPn9Byte(s.lfsr).0)], lfsr := GetPn9Byte(s.lfsr).1)
    else s
  }

  /** The completed octet fed to CRC-16, or to CRC-32 while the index is below `stop` - 4. */
  function FeedCrc(s: FecSink): (r: FecSink)
    requires 0 <= s.idx < |s.buf|
    ensures r == s.(crc16 := r.crc16, crc32 := r.crc32)
  {
    if Fcs16(s.phr) then s.(crc16 := CrcMsbFirst(s.crc16, s.buf[s.idx]))
    else if s.idx < s.stop - 4 then s.(crc32 := UpdateCrc32(s.crc32, s.buf[s.idx]))
    else s
  }

  /**
   * After each bit of a later block: at two octets the PHR is read and the
   * end set; once the index reaches the end the frame is delivered.
   */
  function CheckStop(s: FecSink): (r: FecSink)
    requires |s.buf| == BUF_SIZE && s.state == HaveSync && Pushed(s)
    ensures |r.buf| == BUF_SIZE && r.rfBuf == s.rfBuf && r.bitCnt == s.bitCnt && r.dec == s.dec
    ensures r.state == HaveSync ==> RxOk(r) && r.idx >= 1
  {
    if s.stop == NO_STOP then
      (if s.idx == PHR_LENGTH then ReadPhr(s) else s)
    else if s.idx >= s.stop then Deliver(s)
    else s
  }

  /** The PHR from the first two octets: it selects and seeds the CRC (and the whitening) and sets the end. */
  function ReadPhr(s: FecSink): (r: FecSink)
    requires |s.buf| == BUF_SIZE
    ensures r.phr == FromOctets(s.buf[0], s.buf[1]) && r.stop == FrameLength(r.phr) + PHR_LENGTH
    ensures r == s.(phr := r.phr, crc16 := r.crc16, crc32 := r.crc32, lfsr := r.lfsr, stop := r.stop)
  {
    var phr := FromOctets(s.buf[0], s.buf[1]);
    s.(phr := phr,
       crc16 := if Fcs16(phr) then INITIAL_CRC16 else s.crc16,
       crc32 := if Fcs16(phr) then s.crc32 else INITIAL_CRC32,
       lfsr := if Dw(phr) then PN9_SEED else s.lfsr,
       stop := FrameLength(phr) + PHR_LENGTH)
  }

  /** Queue a type-1 record with the PHR, the verdict and the octets past the PHR, and search again. */
  function Deliver(s: FecSink): (r: FecSink)
    requires |s.buf| == BUF_SIZE && PHR_LENGTH <= s.idx <= BUF_SIZE
    ensures r.state == SyncSearch && |r.buf| == BUF_SIZE
    ensures |r.queue| == |s.queue| + 1 && r.queue[..|s.queue|] == s.queue
    ensures r.queue[|s.queue|].kind == 1 && r.queue[|s.queue|].phr == s.phr
    ensures r.queue[|s.queue|].bytes == s.buf[PHR_LENGTH..s.idx]
    ensures r.rfBuf == s.rfBuf && r.bitCnt == s.bitCnt && r.dec == s.dec
  {
    var psdu := s.buf[PHR_LENGTH..s.idx];
    if Fcs16(s.phr) then
      s.(state := SyncSearch, queue := s.queue + [Message(1, s.phr, s.crc16 == 0, psdu)])
    else
      var v := FecCrc32Verdict(s.crc32, s.buf, s.idx);
      s.(crc32 := v.0, state := SyncSearch, queue := s.queue + [Message(1, s.phr, v.1, psdu)])
  }

  /**
   * The CRC-32 verdict when the PSDU ends before buffer position `end`: the
   * register padded up to eight octets and complemented, compared with the
   * four octets before `end`. As written these are read whatever the PSDU's
   * length, so a PSDU of two or three octets is checked against PHR octets
   * too; only the reads before the buffer (a PSDU of fewer than two octets)
   * are replaced by a failed check.
   */
  function FecCrc32Verdict(crc: bv32, buf: seq<bv8>, end: int): (bv32, bool)
    requires PHR_LENGTH <= end <= |buf|
  {
    var reg := !PadRegister(crc, end - PHR_LENGTH);
    (reg, end >= 4 && Word32(buf[end - 4..end]) == reg)
  }

  /** From four PSDU octets on, the verdict is Frame's guarded one on the PSDU alone. */
  lemma FecVerdictOnPsdu(crc: bv32, buf: seq<bv8>, end: int)
    requires PHR_LENGTH + 4 <= end <= |buf|
    ensures FecCrc32Verdict(crc, buf, end) == Crc32Verdict(crc, buf[PHR_LENGTH..end], end - PHR_LENGTH)
  {
    assert buf[PHR_LENGTH..end][end - PHR_LENGTH - 4..end - PHR_LENGTH] == buf[end - 4..end];
  }

  /** The verdict reads no octet of the buffer at or past `end`. */
  lemma FecVerdictOnPrefix(crc: bv32, buf: seq<bv8>, other: seq<bv8>, end: int)
    requires PHR_LENGTH <= end <= |buf| && end <= |other| && buf[..end] == other[..end]
    ensures FecCrc32Verdict(crc, buf, end) == FecCrc32Verdict(crc, other, end)
  {
    if end >= 4 {
      assert buf[end - 4..end] == buf[..end][end - 4..end];
      assert other[end - 4..end] == other[..end][end - 4..end];
    }
  }

  /**
   * As written, a PSDU of two or three octets passes the CRC-32 check when
   * the four octets before its end, PHR octets among them, hold the padded
   * register, although it is shorter than its FCS; the guarded verdict
   * rejects it. The buffer that starts with the register's octets is one.
   */
  lemma ShortPsduMatchesPhr(crc: bv32, buf: seq<bv8>, end: int)
    requires PHR_LENGTH + 2 <= end <= PHR_LENGTH + 3 && end <= |buf|
    requires buf[end - 4..end] == BigEndian32(!PadRegister(crc, end - PHR_LENGTH))
    ensures FecCrc32Verdict(crc, buf, end).1 && !Crc32Verdict(crc, buf[PHR_LENGTH..end], end - PHR_LENGTH).1
  {
    Word32BigEndian(!PadRegister(crc, end - PHR_LENGTH));
  }

  /** A symbol decoded, its decided bit pushed, and the counters shifted. */
  function PushSymbol(s: FecSink, u: bv8): (r: FecSink)
    requires |s.buf| == BUF_SIZE && 0 <= s.idx < BUF_SIZE && 0 <= s.bit < 8
    ensures |r.buf| == BUF_SIZE && 0 <= r.bit < 8 && Pos(r) == Pos(s) + 1
    ensures r.state == s.state && r.bitCnt == s.bitCnt && r.rfBuf == s.rfBuf && r.queue == s.queue && r.stop == s.stop
  {
    Shift(Push(DecodeStep(s, u)))
  }

  /** A symbol of a later block: decode, push, shift, check the end. */
  function LaterSymbol(s: FecSink, u: bv8): (r: FecSink)
    requires Inv(s) && s.state == HaveSync && s.idx >= 1
    ensures Inv(r) && (r.state == HaveSync ==> r.idx >= 1) && r.bitCnt == s.bitCnt && r.rfBuf == s.rfBuf
  {
    PushedAfterSymbol(s, u);
    CheckStop(PushSymbol(s, u))
  }

  /** A symbol pushed between blocks ends in a Pushed state. */
  lemma PushedAfterSymbol(s: FecSink, u: bv8)
    requires |s.buf| == BUF_SIZE && RxOk(s) && s.idx >= 1
    ensures 0 <= s.idx < BUF_SIZE && Pushed(PushSymbol(s, u))
  {
  }

  /**
   * A later block after its symbols 0 .. `j` - 1; a delivered frame ends the
   * block (the rest of the word is dropped and SYNC_SEARCH resumes with the
   * next item), so from the symbol that delivers it on the state stays put.
   */
  function LaterUpTo(s: FecSink, w: bv32, j: nat): (r: FecSink)
    requires Inv(s) && s.state == HaveSync && s.idx >= 1 && j <= BLOCK_SYMBOLS
    ensures Inv(r) && (r.state == HaveSync ==> r.idx >= 1) && r.bitCnt == s.bitCnt && r.rfBuf == s.rfBuf
    decreases j, 0
  {
    if j == 0 then s else LaterAt(s, w, j - 1)
  }

  /** A later block after its symbol `j`: unchanged if an earlier symbol has delivered a frame. */
  function LaterAt(s: FecSink, w: bv32, j: nat): (r: FecSink)
    requires Inv(s) && s.state == HaveSync && s.idx >= 1 && j < BLOCK_SYMBOLS
    ensures Inv(r) && (r.state == HaveSync ==> r.idx >= 1) && r.bitCnt == s.bitCnt && r.rfBuf == s.rfBuf
    decreases j, 1
  {
    var t := LaterUpTo(s, w, j);
    if t.state != HaveSync then t else LaterSymbol(t, Sym(w, j))
  }

  /**
   * LaterUpTo as the block loop states it: naming the state through a
   * non-recursive function keeps the verifier from unfolding the recursion
   * (and so the symbol) at every step of the loop.
   */
  ghost function LaterState(s: FecSink, w: bv32, j: nat): FecSink
    requires Inv(s) && s.state == HaveSync && s.idx >= 1 && j <= BLOCK_SYMBOLS
  {
    LaterUpTo(s, w, j)
  }

  /** One more symbol of a later block that is still in a frame. */
  lemma LaterUpToNext(s: FecSink, w: bv32, j: nat)
    requires Inv(s) && s.state == HaveSync && s.idx >= 1 && j < BLOCK_SYMBOLS
    requires LaterUpTo(s, w, j).state == HaveSync
    ensures LaterUpTo(s, w, j + 1) == LaterSymbol(LaterUpTo(s, w, j), Sym(w, j))
  {
  }

  /** A block that has delivered its frame takes no more symbols. */
  lemma LaterUpToHalted(s: FecSink, w: bv32, j: nat)
    requires Inv(s) && s.state == HaveSync && s.idx >= 1 && 0 < j <= BLOCK_SYMBOLS
    requires LaterUpTo(s, w, j - 1).state != HaveSync
    ensures LaterUpTo(s, w, j) == LaterUpTo(s, w, j - 1)
  {
  }

  /** Once a symbol has delivered a frame, the rest of the block changes nothing. */
  lemma {:induction false} LaterUpToStays(s: FecSink, w: bv32, j: nat, k: nat)
    requires Inv(s) && s.state == HaveSync && s.idx >= 1 && j <= k <= BLOCK_SYMBOLS
    requires LaterUpTo(s, w, j).state != HaveSync
    ensures LaterUpTo(s, w, k) == LaterUpTo(s, w, j)
    decreases k - j
  {
    if k > j {
      LaterUpToHalted(s, w, j + 1);
      LaterUpToStays(s, w, j + 1, k);
    }
  }

  /**
   * The first block of a frame: its first two symbols seed the decoder's
   * history, the third is decoded without a push, and the other thirteen are
   * decoded and pushed (the PHR cannot be complete yet, so the end is not checked).
   */
  function FirstBlockStep(s: FecSink): (r: FecSink)
    requires Inv(s) && s.state == HaveSync && s.idx == 0
    ensures Inv(r) && r.state == HaveSync && r.idx == 1 && r.bitCnt == s.bitCnt
    ensures Pos(r) == BLOCK_SYMBOLS - 3 && r.stop == NO_STOP && r.queue == s.queue
  {
    FirstUpTo(Shift(DecodeStep(Seeded(s), Sym(s.rfBuf, 2))), s.rfBuf, BLOCK_SYMBOLS)
  }

  /** The decoder's history seeded with the block's first two symbols. */
  function Seeded(s: FecSink): (r: FecSink)
    ensures r == s.(dec := r.dec) && r.dec == s.dec.(ppui := r.dec.ppui, pui := r.dec.pui)
  {
    s.(dec := s.dec.(ppui := (s.rfBuf >> 30) as bv8, pui := ((s.rfBuf >> 28) & 3) as bv8))
  }

  /** The first block after its symbols 3 .. `j` - 1, each decoded, pushed and shifted. */
  function FirstUpTo(s: FecSink, w: bv32, j: nat): (r: FecSink)
    requires |s.buf| == BUF_SIZE && s.stop == NO_STOP && 0 <= s.bit < 8 && Pos(s) == 0
    requires 3 <= j <= BLOCK_SYMBOLS
    ensures |r.buf| == BUF_SIZE && r.stop == NO_STOP && 0 <= r.bit < 8 && Pos(r) == j - 3
    ensures r.state == s.state && r.bitCnt == s.bitCnt && r.rfBuf == s.rfBuf && r.queue == s.queue
    decreases j, 0
  {
    if j == 3 then s else FirstAt(s, w, j - 1)
  }

  /** The first block after its symbol `j` (from the fourth on). */
  function FirstAt(s: FecSink, w: bv32, j: nat): (r: FecSink)
    requires |s.buf| == BUF_SIZE && s.stop == NO_STOP && 0 <= s.bit < 8 && Pos(s) == 0
    requires 3 <= j < BLOCK_SYMBOLS
    ensures |r.buf| == BUF_SIZE && r.stop == NO_STOP && 0 <= r.bit < 8 && Pos(r) == j - 2
    ensures r.state == s.state && r.bitCnt == s.bitCnt && r.rfBuf == s.rfBuf && r.queue == s.queue
    decreases j, 1
  {
    PushSymbol(FirstUpTo(s, w, j), Sym(w, j))
  }

  /** FirstUpTo as the first-block loop states it (see LaterState). */
  ghost function FirstState(s: FecSink, w: bv32, j: nat): FecSink
    requires |s.buf| == BUF_SIZE && s.stop == NO_STOP && 0 <= s.bit < 8 && Pos(s) == 0
    requires 3 <= j <= BLOCK_SYMBOLS
  {
    FirstUpTo(s, w, j)
  }

  /** One more symbol of the first block. */
  lemma FirstUpToNext(s: FecSink, w: bv32, j: nat)
    requires |s.buf| == BUF_SIZE && s.stop == NO_STOP && 0 <= s.bit < 8 && Pos(s) == 0
    requires 3 <= j < BLOCK_SYMBOLS
    ensures FirstUpTo(s, w, j + 1) == PushSymbol(FirstUpTo(s, w, j), Sym(w, j))
  {
  }

  /** An item outside a frame starts one exactly when it is flagged. */
  lemma StepSearch(s: FecSink, item: bv8)
    requires Inv(s) && s.state == SyncSearch
    ensures Step(s, item) == if SyncFlag(item) then Sync(s, item) else s
  {
  }

  /** An item inside a frame is a channel bit. */
  lemma StepRawBit(s: FecSink, item: bv8)
    requires Inv(s) && s.state == HaveSync
    ensures Step(s, item) == RawBit(s, item)
  {
  }

  // ---------------------------------------------------------------------
  // What a block puts in the buffer
  // ---------------------------------------------------------------------

  /** Moving the mask changes no bit of the buffer, unless it completes an octet that is de-whitened. */
  lemma NextMaskKeepsBuf(s: FecSink)
    requires 0 <= s.idx < |s.buf| && 0 <= s.bit < 8
    requires s.stop == NO_STOP || !Dw(s.phr) || s.bit < 7
    ensures NextMask(s).buf == s.buf
  {
  }

  /**
   * `push_bit` writes the decided bit at bit Pos(`s`) of the buffer and leaves
   * the bits before it as they were, unless it completes an octet that is
   * de-whitened.
   */
  lemma PushWrites(s: FecSink)
    requires |s.buf| == BUF_SIZE && 0 <= s.idx < BUF_SIZE && 0 <= s.bit < 8
    requires s.stop == NO_STOP || !Dw(s.phr) || s.bit < 7
    ensures forall k :: 0 <= k <= Pos(s) ==>
      BufBit(Push(s).buf, k) == if k == Pos(s) then DecidedBit(s.dec) else BufBit(s.buf, k)
  {
    NextMaskKeepsBuf(WriteBit(s));
    forall k | 0 <= k <= Pos(s)
      ensures BufBit(Push(s).buf, k) == if k == Pos(s) then DecidedBit(s.dec) else BufBit(s.buf, k)
    {
      WrittenBit(s.buf, s.idx, s.bit, DecidedBit(s.dec), k);
    }
  }

  /** The sixteen symbols of a de-interleaved block, first on the air first. */
  function BlockSymbols(w: bv32): (syms: seq<bv8>)
    ensures |syms| == BLOCK_SYMBOLS && forall j :: 0 <= j < BLOCK_SYMBOLS ==> syms[j] == Sym(w, j)
  {
    seq(BLOCK_SYMBOLS, j requires 0 <= j < BLOCK_SYMBOLS => Sym(w, j))
  }

  /**
   * After the symbols `syms[..t]`: the decoder is Nrnsc's reference decoder
   * over them, and the buffer's first bits are the ones it has decided.
   */
  ghost predicate DecodedSoFar(r: FecSink, syms: seq<bv8>, t: nat)
    requires 3 <= t <= |syms|
  {
    r.dec == DecoderAfter(syms, t) && Pos(r) == t - 3 && t - 3 <= 8 * |r.buf| &&
    forall k :: 0 <= k < t - 3 ==> BufBit(r.buf, k) == Decoded(syms, t)[k]
  }

  /** Decoding and pushing the next symbol keeps the buffer in step with the reference decoder. */
  lemma PushSymbolDecodes(s: FecSink, syms: seq<bv8>, t: nat)
    requires |s.buf| == BUF_SIZE && 0 <= s.idx < BUF_SIZE && 0 <= s.bit < 8 && s.stop == NO_STOP
    requires 3 <= t < |syms| && DecodedSoFar(s, syms, t)
    ensures DecodedSoFar(PushSymbol(s, syms[t]), syms, t + 1)
  {
    var u := DecodeStep(s, syms[t]);
    PushWrites(u);
    var r := PushSymbol(s, syms[t]);
    forall k | 0 <= k < t - 2
      ensures BufBit(r.buf, k) == Decoded(syms, t + 1)[k]
    {
      if k < t - 3 {
        assert Decoded(syms, t + 1)[k] == Decoded(syms, t)[k];
      }
    }
  }

  /** Through the first block the buffer stays in step with the reference decoder over the block's symbols. */
  lemma {:induction false} FirstUpToDecodes(s: FecSink, w: bv32, j: nat)
    requires |s.buf| == BUF_SIZE && s.stop == NO_STOP && 0 <= s.bit < 8 && Pos(s) == 0
    requires 3 <= j <= BLOCK_SYMBOLS && s.dec == DecoderAfter(BlockSymbols(w), 3)
    ensures DecodedSoFar(FirstState(s, w, j), BlockSymbols(w), j)
    decreases j
  {
    if j > 3 {
      FirstUpToDecodes(s, w, j - 1);
      FirstUpToNext(s, w, j - 1);
      PushSymbolDecodes(FirstState(s, w, j - 1), BlockSymbols(w), j - 1);
    }
  }

  /**
   * The first block of a frame, from the cleared counters a sync leaves:
   * the thirteen bits it pushes are the ones the reference decoder decides
   * from its sixteen symbols, and the decoder ends where the reference does.
   */
  lemma FirstBlockDecodes(s: FecSink)
    requires Inv(s) && s.state == HaveSync && s.idx == 0
    requires s.dec.w0 == 0 && s.dec.w1 == 0 && s.dec.w2 == 0 && s.dec.w3 == 0
    ensures var r := FirstBlockStep(s); var syms := BlockSymbols(s.rfBuf);
      r.dec == DecoderAfter(syms, BLOCK_SYMBOLS) &&
      forall k :: 0 <= k < 13 ==> BufBit(r.buf, k) == Decoded(syms, BLOCK_SYMBOLS)[k]
  {
    var w := s.rfBuf;
    SymIsField(w);
    var t := Shift(DecodeStep(Seeded(s), Sym(w, 2)));
    assert t.dec == DecoderAfter(BlockSymbols(w), 3);
    FirstUpToDecodes(t, w, BLOCK_SYMBOLS);
    assert FirstBlockStep(s) == FirstState(t, w, BLOCK_SYMBOLS);
  }

  /**
   * Error-free reception of a frame's first sixteen coded bits: the octet
   * bits the first block writes are the first thirteen source bits (the
   * decoder runs three symbols late).
   */
  lemma FirstBlockRecoversBits(s: FecSink, bits: seq<bool>)
    requires Inv(s) && s.state == HaveSync && s.idx == 0
    requires s.dec.w0 == 0 && s.dec.w1 == 0 && s.dec.w2 == 0 && s.dec.w3 == 0
    requires |bits| == BLOCK_SYMBOLS && BlockSymbols(s.rfBuf) == Encode(bits)
    ensures forall k :: 0 <= k < 13 ==> BufBit(FirstBlockStep(s).buf, k) == bits[k]
  {
    FirstBlockDecodes(s);
    DecodeEncode(bits);
  }

  /**
   * As written, the CRC-32 check has no guard on the PSDU length: the PHR
   * 0x0000 (empty PSDU, CRC-32) sets the end at the PHR itself, the next
   * symbol delivers an empty record, and the check reads the received FCS
   * from buffer positions 1 down to -2, the last two before the buffer.
   * (The model's FecCrc32Verdict fails the check there without reading.)
   */
  lemma EmptyFrameReadsBeforeBuffer(s: FecSink, u: bv8)
    requires |s.buf| == BUF_SIZE && s.state == HaveSync && 0 <= s.bitCnt < BLOCK_BITS
    requires s.stop == NO_STOP && s.idx == PHR_LENGTH && s.bit == 0 && s.buf[0] == 0 && s.buf[1] == 0
    ensures var t := CheckStop(s); var r := LaterSymbol(t, u);
      t.phr == 0 && !Fcs16(t.phr) && t.stop == PHR_LENGTH && t.state == HaveSync &&
      r.state == SyncSearch && r.queue == s.queue + [Message(1, 0, false, [])] &&
      Crc32ReadIndices(r.idx) == [1, 0, -1, -2]
  {
    var t := CheckStop(s);
    assert FromOctets(0, 0) == 0 && FrameLength(0) == 0;
    assert t.phr == 0 && t.stop == PHR_LENGTH;
    var p := PushSymbol(t, u);
    assert p.idx == PHR_LENGTH && p.stop == PHR_LENGTH;
  }

  // ---------------------------------------------------------------------
  // Runs
  // ---------------------------------------------------------------------

  /** Step made total, so that runs are folds: a state outside Inv (none is reachable) is left as it is. */
  ghost function Next(s: FecSink, item: bv8): FecSink
  {
    if Inv(s) then Step(s, item) else s
  }

  lemma NextKeepsInv()
    ensures forall s, item :: Inv(s) ==> Inv(Next(s, item))
  {
  }

  /** The fields after a sequence of items. */
  ghost function Run(s: FecSink, items: seq<bv8>): (r: FecSink)
    requires Inv(s)
    ensures Inv(r)
  {
    NextKeepsInv();
    FoldKeeps(Next, Inv, s, items);
    Fold(Next, s, items)
  }

  /** The fields after the items `input[i..j]`: Run by position rather than by slice. */
  ghost function RunFrom(s: FecSink, input: seq<bv8>, i: nat, j: nat): (r: FecSink)
    requires Inv(s) && i <= j <= |input|
    ensures Inv(r)
  {
    NextKeepsInv();
    FoldFromKeeps(Next, Inv, s, input, i, j);
    FoldFrom(Next, s, input, i, j)
  }

  lemma RunFromSlice(s: FecSink, input: seq<bv8>, i: nat, j: nat)
    requires Inv(s) && i <= j <= |input|
    ensures RunFrom(s, input, i, j) == Run(s, input[i..j])
  {
    FoldFromSlice(Next, s, input, i, j);
  }

  /** Running `input[i..k]` then `input[k..j]` is running `input[i..j]`. */
  lemma RunFromJoin(s: FecSink, input: seq<bv8>, i: nat, k: nat, j: nat)
    requires Inv(s) && i <= k <= j <= |input|
    ensures RunFrom(RunFrom(s, input, i, k), input, k, j) == RunFrom(s, input, i, j)
  {
    FoldFromJoin(Next, s, input, i, k, j);
  }

  lemma RunFromStep(s: FecSink, input: seq<bv8>, i: nat, j: nat)
    requires Inv(s) && i < j <= |input|
    ensures RunFrom(s, input, i, j) == Step(RunFrom(s, input, i, j - 1), input[j - 1])
  {
  }

  /** The last item of a run is one more Step. */
  lemma RunSnoc(s: FecSink, items: seq<bv8>)
    requires Inv(s) && |items| > 0
    ensures Run(s, items) == Step(Run(s, items[..|items| - 1]), items[|items| - 1])
  {
  }

  lemma RunAppend(s: FecSink, a: seq<bv8>, b: seq<bv8>)
    requires Inv(s)
    ensures Run(s, a + b) == Run(Run(s, a), b)
  {
    FoldAppend(Next, s, a, b);
  }

  // ---------------------------------------------------------------------
  // The deframer object: its fields and arrays updated in place by `work`
  // ---------------------------------------------------------------------

  class FecFramerSink {
    var state: FecState
    var rfBuf: bv32
    var bitCnt: int
    /** `weights`: the decoder's vote counters. */
    const weights: array<int>
    var ppui: bv8
    var pui: bv8
    /** `phr_psdu_buf`: the PHR and PSDU octets of the frame being received. */
    const buf: array<bv8>
    var idx: int
    var stop: int
    var dbBp: bv8
    var phr: bv16
    var crc16: bv16
    var crc32: bv32
    var lfsr: bv16
    /** The records this deframer has put on its target queue, oldest first. */
    var queue: seq<Message>

    /** The decoder's state. */
    function Dec(): Decoder
      requires weights.Length == NUM_WEIGHTS
      reads this, weights
    {
      Decoder(weights[0], weights[1], weights[2], weights[3], ppui, pui)
    }

    /** The value of the fields. */
    function Fields(): FecSink
      requires weights.Length == NUM_WEIGHTS
      reads this, weights, buf
    {
      FecSink(state, rfBuf, bitCnt, Dec(), buf[..], idx, stop, Lead(dbBp), phr, crc16, crc32, lfsr, queue)
    }

    /** Four vote counters and an octet buffer, held in two distinct arrays. */
    predicate Arrays()
      reads this
    {
      weights.Length == NUM_WEIGHTS && weights as object != buf
    }

    ghost predicate Valid()
      reads this, weights, buf
    {
      Arrays() && Inv(Fields()) && (state == HaveSync ==> IsMask(dbBp))
    }

    /**
     * Only the state is set; the other members start with whatever values
     * they hold, and nothing reads them before a sync has set them.
     */
    constructor ()
      ensures Valid() && state == SyncSearch && queue == [] && fresh(weights) && fresh(buf)
    {
      state := SyncSearch;
      weights := new int[NUM_WEIGHTS];
      buf := new bv8[BUF_SIZE];
      queue := [];
    }

    /** `work`: consume every item; the fields end as Run says. */
    method Work(input: seq<bv8>) returns (produced: int)
      requires Valid()
      modifies this, weights, buf
      ensures Valid() && produced == |input|
      ensures Fields() == Run(old(Fields()), input)
    {
      ghost var s0 := Fields();
      var count := 0;
      while count < |input|
        invariant Valid() && 0 <= count <= |input| && Fields() == RunFrom(s0, input, 0, count)
        decreases |input| - count
      {
        var next;
        match state {
          case SyncSearch => next := SearchSync(input, count);
          case HaveSync => next := ReadBits(input, count);
        }
        RunFromJoin(s0, input, 0, count, next);
        count := next;
      }
      RunFromSlice(s0, input, 0, |input|);
      assert input[0..|input|] == input;
      produced := |input|;
    }

    /** SYNC_SEARCH: pass over items until one is flagged. */
    method SearchSync(input: seq<bv8>, start: nat) returns (count: nat)
      requires Valid() && state == SyncSearch && start < |input|
      modifies this, weights
      ensures start < count <= |input| && Fields() == RunFrom(old(Fields()), input, start, count)
      ensures Valid()
    {
      ghost var s0 := Fields();
      count := start;
      while count < |input|
        invariant Valid() && start <= count <= |input| && Fields() == RunFrom(s0, input, start, count)
        invariant count == start || state == SyncSearch
        decreases |input| - count
      {
        var found := SyncItem(input[count]);
        count := count + 1;
        if found {
          break;
        }
      }
    }

    /** One item in SYNC_SEARCH: a flagged one starts the first block with its data bit. */
    method SyncItem(item: bv8) returns (found: bool)
      requires Valid() && state == SyncSearch
      modifies this, weights
      ensures Fields() == Step(old(Fields()), item)
      ensures Valid() && found == (state != SyncSearch)
    {
      StepSearch(Fields(), item);
      if SyncFlag(item) {
        state := HaveSync;
        rfBuf := DataBit(item) as bv32;
        bitCnt := 1;
        ClearWeights();
        idx := 0;
        dbBp := 0x80;
        stop := NO_STOP;
        found := true;
      } else {
        found := false;
      }
    }

    /** Clear the counters, last first. */
    method ClearWeights()
      requires Arrays()
      modifies weights
      ensures Dec() == Cleared(old(Dec()))
    {
      var n := NUM_WEIGHTS - 1;
      while n >= 0
        invariant -1 <= n < NUM_WEIGHTS
        invariant forall k :: n < k < NUM_WEIGHTS ==> weights[k] == 0
        decreases n
      {
        weights[n] := 0;
        n := n - 1;
      }
    }

    /** HAVE_SYNC: take channel bits until a frame is delivered or the input ends. */
    method ReadBits(input: seq<bv8>, start: nat) returns (count: nat)
      requires Valid() && state == HaveSync && start < |input|
      modifies this, weights, buf
      ensures start < count <= |input| && Fields() == RunFrom(old(Fields()), input, start, count)
      ensures Valid()
    {
      ghost var s0 := Fields();
      count := start;
      var left := false;
      while count < |input| && !left
        invariant Valid() && start <= count <= |input| && Fields() == RunFrom(s0, input, start, count)
        invariant left == (state != HaveSync) && (count == start ==> !left)
        decreases |input| - count
      {
        left := RawItem(input[count]);
        count := count + 1;
        RunFromStep(s0, input, start, count);
      }
    }

    /** One channel bit; the 32nd of a block has the block de-interleaved and decoded. */
    method RawItem(item: bv8) returns (left: bool)
      requires Valid() && state == HaveSync
      modifies this, weights, buf
      ensures Fields() == Step(old(Fields()), item)
      ensures Valid() && left == (state != HaveSync)
    {
      ghost var s0 := Fields();
      StepRawBit(s0, item);
      ShiftIn(item);
      EndBit();
      left := state != HaveSync;
    }

    /** The 32nd bit of a block has the block de-interleaved and decoded. */
    method EndBit()
      requires Arrays() && IsMask(dbBp) && buf.Length == BUF_SIZE && state == HaveSync
      requires 0 < bitCnt <= BLOCK_BITS && RxOk(Fields())
      modifies this, weights, buf
      ensures Fields() == BlockEnd(old(Fields())) && Valid()
    {
      if bitCnt == BLOCK_BITS {
        StartBlock();
        ProcessBlock();
      }
    }

    /** The channel bit shifted into `rf_buf` and counted. */
    method ShiftIn(item: bv8)
      requires Arrays()
      modifies this`rfBuf, this`bitCnt
      ensures Fields() == old(Fields()).(rfBuf := Shl32(old(rfBuf), item), bitCnt := old(bitCnt) + 1)
    {
      rfBuf := Shl32(rfBuf, item);
      bitCnt := bitCnt + 1;
    }

    /** A full block: the count restarts and the word is de-interleaved. */
    method StartBlock()
      requires Arrays()
      modifies this`rfBuf, this`bitCnt
      ensures Fields() == old(Fields()).(rfBuf := InterleaveU32(old(rfBuf)), bitCnt := 0)
    {
      bitCnt := 0;
      rfBuf := InterleaveU32(rfBuf);
    }

    /** A de-interleaved block: the first of the frame, or a later one. */
    method ProcessBlock()
      requires Valid() && state == HaveSync
      modifies this, weights, buf
      ensures Fields() == BlockStep(old(Fields())) && IsMask(dbBp)
    {
      if idx == 0 {
        FirstBlock();
      } else {
        LaterBlock();
      }
    }

    /** The first block: seed the history, decode the third symbol, then decode and push the rest. */
    method FirstBlock()
      requires Valid() && state == HaveSync && idx == 0
      modifies weights, buf, this`ppui, this`pui, this`dbBp, this`idx, this`lfsr, this`crc16, this`crc32
      ensures Fields() == FirstBlockStep(old(Fields())) && IsMask(dbBp)
    {
      SeedHistory();
      Decode(Sym(rfBuf, 2));
      ShiftCounters();
      FirstSymbolsLoop();
    }

    /** Symbols 3 to 15 of the first block: decode, push, shift. */
    method FirstSymbolsLoop()
      requires Arrays() && buf.Length == BUF_SIZE && idx == 0 && dbBp == 0x80 && stop == NO_STOP
      modifies weights, buf, this`ppui, this`pui, this`dbBp, this`idx, this`lfsr, this`crc16, this`crc32
      ensures Fields() == FirstUpTo(old(Fields()), rfBuf, BLOCK_SYMBOLS) && IsMask(dbBp)
    {
      ghost var s0 := Fields();
      var w := rfBuf;
      var j := 3;
      while j < BLOCK_SYMBOLS
        invariant 3 <= j <= BLOCK_SYMBOLS && Arrays() && IsMask(dbBp)
        invariant Fields() == FirstState(s0, w, j)
        decreases BLOCK_SYMBOLS - j
      {
        FirstBlockSymbol(s0, w, j);
        j := j + 1;
      }
    }

    /** Symbol `j` of the first block, taken from the block word `w`. */
    method FirstBlockSymbol(ghost s0: FecSink, w: bv32, j: int)
      requires |s0.buf| == BUF_SIZE && s0.stop == NO_STOP && 0 <= s0.bit < 8 && Pos(s0) == 0
      requires 3 <= j < BLOCK_SYMBOLS && Arrays() && IsMask(dbBp) && Fields() == FirstState(s0, w, j)
      modifies weights, buf, this`ppui, this`pui, this`dbBp, this`idx, this`lfsr, this`crc16, this`crc32
      ensures Fields() == FirstState(s0, w, j + 1) && IsMask(dbBp)
    {
      FirstUpToNext(s0, w, j);
      PushSymbolStep(Sym(w, j));
    }

    /** The history seeded from the first two symbols of the block in `rfBuf`. */
    method SeedHistory()
      requires Arrays()
      modifies this`ppui, this`pui
      ensures Fields() == Seeded(old(Fields()))
    {
      ppui := (rfBuf >> 30) as bv8;
      pui := ((rfBuf >> 28) & 3) as bv8;
    }

    /** One symbol: decode, push, shift. */
    method PushSymbolStep(u: bv8)
      requires Arrays() && buf.Length == BUF_SIZE && 0 <= idx < BUF_SIZE && IsMask(dbBp)
      modifies weights, buf, this`ppui, this`pui, this`dbBp, this`idx, this`lfsr, this`crc16, this`crc32
      ensures Fields() == PushSymbol(old(Fields()), u) && IsMask(dbBp)
    {
      Decode(u);
      PushBit();
      ShiftCounters();
    }

    /** A later block: decode, push, shift and check the end for each symbol, until a frame is delivered. */
    method LaterBlock()
      requires Valid() && state == HaveSync && idx >= 1
      modifies this, weights, buf
      ensures Fields() == LaterUpTo(old(Fields()), old(rfBuf), BLOCK_SYMBOLS) && IsMask(dbBp)
    {
      ghost var s0 := Fields();
      var w := rfBuf;
      var j := 0;
      while j < BLOCK_SYMBOLS && state == HaveSync
        invariant 0 <= j <= BLOCK_SYMBOLS && Valid() && IsMask(dbBp)
        invariant Fields() == LaterState(s0, w, j)
        decreases BLOCK_SYMBOLS - j
      {
        LaterBlockSymbol(s0, w, j);
        j := j + 1;
      }
      if j < BLOCK_SYMBOLS {
        LaterUpToStays(s0, w, j, BLOCK_SYMBOLS);
      }
    }

    /** Symbol `j` of a later block, taken from the block word `w`. */
    method LaterBlockSymbol(ghost s0: FecSink, w: bv32, j: int)
      requires Inv(s0) && s0.state == HaveSync && s0.idx >= 1 && 0 <= j < BLOCK_SYMBOLS
      requires Valid() && state == HaveSync && Fields() == LaterState(s0, w, j)
      modifies this, weights, buf
      ensures Valid() && IsMask(dbBp) && Fields() == LaterState(s0, w, j + 1)
    {
      LaterUpToNext(s0, w, j);
      LaterSymbolStep(Sym(w, j));
    }

    /** One symbol of a later block. */
    method LaterSymbolStep(u: bv8)
      requires Valid() && state == HaveSync && idx >= 1
      modifies this, weights, buf
      ensures Fields() == LaterSymbol(old(Fields()), u) && IsMask(dbBp)
    {
      PushedAfterSymbol(Fields(), u);
      PushSymbolStep(u);
      StopCheck();
    }

    /** A symbol into the decoder; nothing else changes. */
    method Decode(u: bv8)
      requires Arrays()
      modifies weights, this`ppui, this`pui
      ensures Fields() == DecodeStep(old(Fields()), u)
    {
      DecodeSymbol(u);
    }

    /** `decode_ui`: one vote into each counter, then the history moves on. */
    method DecodeSymbol(ui: bv8)
      requires Arrays()
      modifies weights, this`ppui, this`pui
      ensures Dec() == DecodeUi(old(Dec()), ui)
    {
      var u := ui & 3;
      var w3: bool;
      if u & 2 != 0 {
        if Par(pui) {
          w3 := NotHiXorLo(ppui);
        } else {
          w3 := Par(ppui);
        }
      } else {
        if Par(pui) {
          w3 := Par(ppui);
        } else {
          w3 := NotHiXorLo(ppui);
        }
      }
      if w3 {
        weights[3] := weights[3] + 1;
      } else {
        weights[3] := weights[3] - 1;
      }
      if Par(u) {
        weights[2] := weights[2] + 1;
      } else {
        weights[2] := weights[2] - 1;
      }
      if Par(pui) {
        weights[1] := weights[1] + 1;
      } else {
        weights[1] := weights[1] - 1;
      }
      if Par(ppui) {
        weights[0] := weights[0] + 1;
      } else {
        weights[0] := weights[0] - 1;
      }
      ppui := pui;
      pui := u;
    }

    /** `shift_weights`. */
    method ShiftCounters()
      requires Arrays()
      modifies weights
      ensures Fields() == Shift(old(Fields()))
    {
      weights[0] := weights[1];
      weights[1] := weights[2];
      weights[2] := weights[3];
      weights[3] := 0;
    }

    /** `push_bit`: the decided bit into the buffer under the mask; a completed octet is absorbed. */
    method PushBit()
      requires Arrays() && buf.Length == BUF_SIZE && 0 <= idx < BUF_SIZE && IsMask(dbBp)
      modifies buf, this`dbBp, this`idx, this`lfsr, this`crc16, this`crc32
      ensures Fields() == Push(old(Fields())) && IsMask(dbBp)
    {
      PutBit();
      MoveMask();
    }

    /** The decided bit set or cleared under the mask. */
    method PutBit()
      requires Arrays() && 0 <= idx < buf.Length && IsMask(dbBp)
      modifies buf
      ensures Fields() == WriteBit(old(Fields()))
    {
      MaskLead(dbBp);
      buf[idx] := SetBit(buf[idx], dbBp, weights[0] > 0);
    }

    /** The mask moves down; past the last bit it restarts, the octet is absorbed (once the PHR is known) and counted. */
    method MoveMask()
      requires Arrays() && 0 <= idx < buf.Length && IsMask(dbBp)
      modifies buf, this`dbBp, this`idx, this`lfsr, this`crc16, this`crc32
      ensures Fields() == NextMask(old(Fields())) && IsMask(dbBp)
    {
      MaskMoves(dbBp);
      dbBp := dbBp >> 1;
      if dbBp == 0 {
        dbBp := 0x80;
        if stop != NO_STOP {
          DewhitenOctet();
          UpdateCrc();
        }
        idx := idx + 1;
      }
    }

    /** The completed octet XORed with the next whitening byte, if DW. */
    method DewhitenOctet()
      requires Arrays() && 0 <= idx < buf.Length
      modifies buf, this`lfsr
      ensures Fields() == Dewhiten(old(Fields()))
    {
      if Dw(phr) {
        var (pn, next) := GetPn9Byte(lfsr);
        buf[idx] := Unwhiten(buf[idx], pn);
        lfsr := next;
      }
    }

    /** The completed octet fed to the CRC the PHR selects. */
    method UpdateCrc()
      requires Arrays() && 0 <= idx < buf.Length
      modifies this`crc16, this`crc32
      ensures Fields() == FeedCrc(old(Fields()))
    {
      if Fcs16(phr) {
        crc16 := CrcMsbFirst(crc16, buf[idx]);
      } else if idx < stop - 4 {
        crc32 := UpdateCrc32(crc32, buf[idx]);
      }
    }

    /** The end check after a bit of a later block: read the PHR at two octets, deliver at the end. */
    method StopCheck()
      requires Arrays() && buf.Length == BUF_SIZE && state == HaveSync && Pushed(Fields())
      modifies this`phr, this`crc16, this`crc32, this`lfsr, this`stop, this`queue, this`state
      ensures Fields() == CheckStop(old(Fields()))
    {
      if stop == NO_STOP {
        if idx == PHR_LENGTH {
          ReadHeader();
        }
      } else if idx >= stop {
        DeliverFrame();
      }
    }

    /** The PHR from the first two octets; it seeds the CRC it selects (and the whitening) and sets the end. */
    method ReadHeader()
      requires Arrays() && buf.Length == BUF_SIZE
      modifies this`phr, this`crc16, this`crc32, this`lfsr, this`stop
      ensures Fields() == ReadPhr(old(Fields()))
    {
      phr := FromOctets(buf[0], buf[1]);
      if Fcs16(phr) {
        crc16 := INITIAL_CRC16;
      } else {
        crc32 := INITIAL_CRC32;
      }
      if Dw(phr) {
        lfsr := PN9_SEED;
      }
      stop := FrameLength(phr) + PHR_LENGTH;
    }

    /** The CRC verdict on the PSDU, its record queued, and back to SYNC_SEARCH. */
    method DeliverFrame()
      requires Arrays() && buf.Length == BUF_SIZE && PHR_LENGTH <= idx <= BUF_SIZE
      modifies this`crc32, this`queue, this`state
      ensures Fields() == Deliver(old(Fields()))
    {
      var crcOk;
      if Fcs16(phr) {
        crcOk := crc16 == 0;
      } else {
        crcOk := CheckCrc32();
      }
      queue := queue + [Message(1, phr, crcOk, buf[PHR_LENGTH..idx])];
      state := SyncSearch;
    }

    /**
     * The CRC-32 verdict at the end of the PSDU: pad with zero octets up to
     * eight, complement, compare with the four octets before `idx` (a PSDU
     * shorter than two octets, whose reads would leave the buffer, fails).
     */
    method CheckCrc32() returns (crcOk: bool)
      requires buf.Length == BUF_SIZE && PHR_LENGTH <= idx <= BUF_SIZE
      modifies this`crc32
      ensures (crc32, crcOk) == FecCrc32Verdict(old(crc32), buf[..], idx)
    {
      PadCrc32();
      crc32 := !crc32;
      crcOk := false;
      if idx >= 4 {
        var rxCrc := Word32(buf[idx - 4..idx]);
        assert buf[idx - 4..idx] == buf[..][idx - 4..idx];
        crcOk := rxCrc == crc32;
      }
    }

    /** Run the CRC-32 register over zero octets until the PSDU and the padding make eight. */
    method PadCrc32()
      modifies this`crc32
      ensures crc32 == PadRegister(old(crc32), idx - PHR_LENGTH)
    {
      var zs := idx - PHR_LENGTH - 4;
      while zs < 4
        invariant PadRegister(crc32, zs + 4) == PadRegister(old(crc32), idx - PHR_LENGTH)
        decreases 4 - zs
      {
        crc32 := UpdateCrc32(crc32, 0);
        zs := zs + 1;
      }
    }
  }
}
