/**
 * The blocks of a frame received by the FEC deframer without channel
 * errors, symbol by symbol, then the whole frame from SYNC_SEARCH: its
 * bits queue one type-1 record and the deframer searches again.
 *
 * The premises travel between the lemmas below bundled into predicates
 * defined through Check, so that each lemma states few separate facts.
 */
module FecFrame {
  import opened Primitives
  import opened Phr
  import opened Frame
  import opened Nrnsc
  import opened Bits
  import opened FramerSinkNrnsc
  import opened FecReception

  // ---------------------------------------------------------------------
  // Premises
  // ---------------------------------------------------------------------

  /** The PSDU `psdu` has the length the PHR `w` announces, and `bits` begin with the frame's bits. */
  ghost predicate Sent(w: bv16, psdu: seq<bv8>, bits: seq<bool>)
  {
    SentCheck(w, psdu, bits) == Pass
  }

  ghost function SentCheck(w: bv16, psdu: seq<bv8>, bits: seq<bool>): Check
  {
    if |psdu| == FrameLength(w) && Carries(bits, ToOctets(w) + psdu) then Pass else Fail
  }

  /** The de-interleaved block word `c` is the encoder output for `bits`, symbols `t0` .. `t0` + 15. */
  ghost predicate BlockAt(c: bv32, bits: seq<bool>, t0: nat)
  {
    BlockCheck(c, bits, t0) == Pass
  }

  ghost function BlockCheck(c: bv32, bits: seq<bool>, t0: nat): Check
  {
    if t0 + BLOCK_SYMBOLS <= |bits| && BlockSymbols(c) == Encode(bits)[t0..t0 + BLOCK_SYMBOLS] then Pass else Fail
  }

  /** Between the symbols of a later block. */
  ghost predicate Synced(r: FecSink)
  {
    SyncedCheck(r) == Pass
  }

  ghost function SyncedCheck(r: FecSink): Check
  {
    if Inv(r) && r.state == HaveSync && r.idx >= 1 then Pass else Fail
  }

  /**
   * The octets `air` on the channel, four to a block, carry the encoder
   * output for `bits` from symbol `t0` on.
   */
  ghost predicate OnAir(air: seq<bv8>, bits: seq<bool>, t0: nat)
    decreases |air|
  {
    |air| == 0 || (|air| >= 4 && BlockAt(InterleaveU32(Word32(air[..4])), bits, t0) && OnAir(air[4..], bits, t0 + BLOCK_SYMBOLS))
  }

  /**
   * Run from any state, so that the lemmas below need not restate Inv, which
   * Run demands and which reception on course implies.
   */
  ghost function RunOn(s: FecSink, items: seq<bv8>): (r: FecSink)
    ensures Inv(s) ==> r == Run(s, items) && Inv(r)
  {
    if Inv(s) then Run(s, items) else s
  }

  // ---------------------------------------------------------------------
  // One block
  // ---------------------------------------------------------------------

  /** Symbol `j` of the block is the frame's symbol `t`, that is `t0` + `j`. */
  lemma BlockSymbolAt(c: bv32, bits: seq<bool>, t0: nat, j: nat, t: nat)
    requires j < BLOCK_SYMBOLS && t == t0 + j && BlockAt(c, bits, t0)
    ensures t < |bits| && Sym(c, j) == Encode(bits)[t]
  {
    assert BlockSymbols(c)[j] == Encode(bits)[t0..t0 + BLOCK_SYMBOLS][j];
  }

  /** One more symbol of a later block still in the frame, through the non-recursive LaterState. */
  lemma LaterStateNext(r: FecSink, c: bv32, k: nat)
    requires Synced(r) && k < BLOCK_SYMBOLS && LaterState(r, c, k).state == HaveSync
    ensures LaterState(r, c, k + 1) == LaterSymbol(LaterState(r, c, k), Sym(c, k))
  {
    LaterUpToNext(r, c, k);
  }

  /** A later block that has delivered its frame, through the non-recursive LaterState. */
  lemma LaterStateHalted(r: FecSink, c: bv32, k: nat)
    requires Synced(r) && k < BLOCK_SYMBOLS && LaterState(r, c, k).state != HaveSync
    ensures LaterState(r, c, k + 1) == LaterState(r, c, k)
  {
    LaterUpToHalted(r, c, k + 1);
  }

  /** Past DeliveredAt, reception on course means the frame was handed on. */
  lemma Handed(x: FecSink, w: bv16, psdu: seq<bv8>, bits: seq<bool>, t: nat, q: seq<Message>)
    requires Received(x, w, psdu, bits, t, q) && !(t - 3 < DeliveredAt(|psdu|))
    ensures Delivered(x, w, psdu, q)
  {
  }

  /** The frame's symbol `t` while it is still coming in. */
  lemma SymbolOn(x: FecSink, w: bv16, psdu: seq<bv8>, bits: seq<bool>, u: bv8, t: nat, q: seq<Message>)
    requires Received(x, w, psdu, bits, t, q) && t - 3 < DeliveredAt(|psdu|) && Sent(w, psdu, bits)
    requires t < |bits| && u == Encode(bits)[t]
    ensures Inv(x) && x.state == HaveSync && x.idx >= 1
    ensures Received(LaterSymbol(x, u), w, psdu, bits, t + 1, q)
  {
    CodedSymbol(x, u, w, psdu, bits, t, q);
  }

  /** Symbol `k` of a later block, the frame's symbol `t`, whether the frame is still coming in or already delivered. */
  lemma BlockSymbol(r: FecSink, w: bv16, psdu: seq<bv8>, bits: seq<bool>, t0: nat, c: bv32, k: nat, t: nat,
                    q: seq<Message>)
    requires Synced(r) && k < BLOCK_SYMBOLS && t == t0 + k && Sent(w, psdu, bits) && BlockAt(c, bits, t0)
    requires Received(LaterState(r, c, k), w, psdu, bits, t, q)
    ensures Received(LaterState(r, c, k + 1), w, psdu, bits, t + 1, q)
  {
    if t - 3 < DeliveredAt(|psdu|) {
      BlockSymbolAt(c, bits, t0, k, t);
      SymbolOn(LaterState(r, c, k), w, psdu, bits, Sym(c, k), t, q);
      LaterStateNext(r, c, k);
    } else {
      Handed(LaterState(r, c, k), w, psdu, bits, t, q);
      LaterStateHalted(r, c, k);
    }
  }

  /**
   * The symbols `k` .. `n` - 1 of a later block keep reception on course; `n` is
   * the block's length, passed as a variable so that LaterState is not unfolded.
   */
  lemma {:induction false} BlockFrom(r: FecSink, w: bv16, psdu: seq<bv8>, bits: seq<bool>, t0: nat, c: bv32, k: nat,
                                     n: nat, t: nat, q: seq<Message>)
    requires n == BLOCK_SYMBOLS && Synced(r) && k <= n && t == t0 + k && Sent(w, psdu, bits) && BlockAt(c, bits, t0)
    requires Received(LaterState(r, c, k), w, psdu, bits, t, q)
    ensures Received(LaterState(r, c, n), w, psdu, bits, t0 + n, q)
    decreases n - k
  {
    if k < n {
      BlockSymbol(r, w, psdu, bits, t0, c, k, t, q);
      BlockFrom(r, w, psdu, bits, t0, c, k + 1, n, t + 1, q);
    }
  }

  /** Reception does not look at the register the channel bits are shifted into. */
  lemma ReceivedRfBuf(r: FecSink, c: bv32, w: bv16, psdu: seq<bv8>, bits: seq<bool>, t: nat, q: seq<Message>)
    requires Received(r, w, psdu, bits, t, q) && t - 3 < DeliveredAt(|psdu|)
    ensures Received(r.(rfBuf := c), w, psdu, bits, t, q) && Synced(r.(rfBuf := c))
  {
    Underway(r, w, psdu, bits, t, q);
    var x := r.(rfBuf := c);
    assert Placed(x, psdu) && DecodedTo(x, bits, t) && Held(x, w, psdu, bits);
    HeaderKept(r, x, w, psdu);
  }

  /** The items of a later block take the state through LaterUpTo over its de-interleaved word. */
  lemma LaterBlockRun(r: FecSink, o: seq<bv8>, w: bv16, psdu: seq<bv8>, bits: seq<bool>, n: nat, t: nat, q: seq<Message>)
    requires n == BLOCK_SYMBOLS && Received(r, w, psdu, bits, t, q) && t - 3 < DeliveredAt(|psdu|) && r.bitCnt == 0 && |o| == 4
    ensures Synced(r.(rfBuf := InterleaveU32(Word32(o))))
    ensures RunOn(r, OctetItems(o)) == LaterState(r.(rfBuf := InterleaveU32(Word32(o))), InterleaveU32(Word32(o)), n)
  {
    Underway(r, w, psdu, bits, t, q);
    LaterBlockItems(r, o);
  }

  // ---------------------------------------------------------------------
  // The later blocks
  // ---------------------------------------------------------------------

  /**
   * The blocks `rest` of a frame still coming in, from symbol `t0` on, with
   * reception on course there; `t1` is the symbol count once they are all taken.
   */
  ghost predicate Ahead(r: FecSink, w: bv16, psdu: seq<bv8>, bits: seq<bool>, t0: nat, rest: seq<bv8>, t1: nat,
                        q: seq<Message>)
  {
    AheadCheck(r, w, psdu, bits, t0, rest, t1, q) == Pass
  }

  ghost function AheadCheck(r: FecSink, w: bv16, psdu: seq<bv8>, bits: seq<bool>, t0: nat, rest: seq<bv8>, t1: nat,
                            q: seq<Message>): Check
  {
    if Received(r, w, psdu, bits, t0, q) && t0 - 3 < DeliveredAt(|psdu|) && r.bitCnt == 0 && Sent(w, psdu, bits) &&
       OnAir(rest, bits, t0) && t1 == t0 + 4 * |rest| && DeliveredAt(|psdu|) + 3 <= t1
    then Pass else Fail
  }

  /** What Ahead holds, spelled out for the first block of `rest`. */
  lemma AheadFacts(r: FecSink, w: bv16, psdu: seq<bv8>, bits: seq<bool>, t0: nat, rest: seq<bv8>, t1: nat,
                   q: seq<Message>)
    requires Ahead(r, w, psdu, bits, t0, rest, t1, q)
    ensures Received(r, w, psdu, bits, t0, q) && t0 - 3 < DeliveredAt(|psdu|) && r.bitCnt == 0 && Sent(w, psdu, bits)
    ensures |rest| >= 4 && BlockAt(InterleaveU32(Word32(rest[..4])), bits, t0)
  {
  }

  /** The first block of `rest`: reception stays on course over its `n` = 16 symbols. */
  lemma LaterBlock(r: FecSink, w: bv16, psdu: seq<bv8>, bits: seq<bool>, t0: nat, rest: seq<bv8>, n: nat, t1: nat,
                   q: seq<Message>)
    requires n == BLOCK_SYMBOLS && Ahead(r, w, psdu, bits, t0, rest, t1, q)
    ensures |rest| >= 4
    ensures Received(RunOn(r, OctetItems(rest[..4])), w, psdu, bits, t0 + n, q)
    ensures RunOn(r, OctetItems(rest[..4])).bitCnt == 0
  {
    AheadFacts(r, w, psdu, bits, t0, rest, t1, q);
    var c := InterleaveU32(Word32(rest[..4]));
    ReceivedRfBuf(r, c, w, psdu, bits, t0, q);
    BlockFrom(r.(rfBuf := c), w, psdu, bits, t0, c, 0, n, t0, q);
    LaterBlockRun(r, rest[..4], w, psdu, bits, n, t0, q);
  }

  /** Ahead for the blocks after the first of `rest`, from the state `x` it leaves. */
  lemma AheadNext(r: FecSink, x: FecSink, w: bv16, psdu: seq<bv8>, bits: seq<bool>, t0: nat, rest: seq<bv8>, t1: nat,
                  q: seq<Message>)
    requires Ahead(r, w, psdu, bits, t0, rest, t1, q) && x.bitCnt == 0
    requires Received(x, w, psdu, bits, t0 + BLOCK_SYMBOLS, q) && t0 + BLOCK_SYMBOLS - 3 < DeliveredAt(|psdu|)
    ensures |rest| >= 4 && Ahead(x, w, psdu, bits, t0 + BLOCK_SYMBOLS, rest[4..], t1, q)
  {
  }

  /** The items of four octets, then those of the rest. */
  lemma FirstOctets(rest: seq<bv8>)
    requires |rest| >= 4
    ensures OctetItems(rest) == OctetItems(rest[..4]) + OctetItems(rest[4..])
  {
    var o, more := rest[..4], rest[4..];
    assert rest == o + more;
    OctetItemsAppend(o, more);
  }

  /** The items of the first block of `rest`, then those of the octets after it. */
  lemma BlockThenRest(r: FecSink, rest: seq<bv8>)
    requires |rest| >= 4
    ensures RunOn(r, OctetItems(rest)) == RunOn(RunOn(r, OctetItems(rest[..4])), OctetItems(rest[4..]))
  {
    FirstOctets(rest);
    if Inv(r) {
      RunAppend(r, OctetItems(rest[..4]), OctetItems(rest[4..]));
    }
  }

  /** After the frame was delivered, octets without a flag leave the deframer searching. */
  lemma HandedSkips(x: FecSink, w: bv16, psdu: seq<bv8>, bits: seq<bool>, t: nat, more: seq<bv8>, t1: nat,
                    q: seq<Message>)
    requires Received(x, w, psdu, bits, t, q) && !(t - 3 < DeliveredAt(|psdu|)) && t <= t1
    ensures Received(RunOn(x, OctetItems(more)), w, psdu, bits, t1, q)
  {
    Handed(x, w, psdu, bits, t, q);
    OctetItemsUnflagged(more);
    SearchSkips(x, OctetItems(more));
  }

  /** The last block of the frame delivers it, and the octets after it change nothing. */
  lemma LastBlock(r: FecSink, x: FecSink, w: bv16, psdu: seq<bv8>, bits: seq<bool>, t0: nat, rest: seq<bv8>, t1: nat,
                  q: seq<Message>)
    requires Ahead(r, w, psdu, bits, t0, rest, t1, q)
    requires Received(x, w, psdu, bits, t0 + BLOCK_SYMBOLS, q) && !(t0 + BLOCK_SYMBOLS - 3 < DeliveredAt(|psdu|))
    ensures |rest| >= 4 && Received(RunOn(x, OctetItems(rest[4..])), w, psdu, bits, t1, q)
  {
    AheadFacts(r, w, psdu, bits, t0, rest, t1, q);
    HandedSkips(x, w, psdu, bits, t0 + BLOCK_SYMBOLS, rest[4..], t1, q);
  }

  /**
   * The later blocks of the frame, symbols `t0` on, then whatever follows on
   * the channel without a flag: the frame is delivered once and the search
   * resumes.
   */
  lemma {:induction false} LaterBlocks(r: FecSink, w: bv16, psdu: seq<bv8>, bits: seq<bool>, t0: nat,
                                       rest: seq<bv8>, t1: nat, q: seq<Message>)
    requires Ahead(r, w, psdu, bits, t0, rest, t1, q)
    ensures Received(RunOn(r, OctetItems(rest)), w, psdu, bits, t1, q)
    decreases |rest|
  {
    LaterBlock(r, w, psdu, bits, t0, rest, BLOCK_SYMBOLS, t1, q);
    BlockThenRest(r, rest);
    var x := RunOn(r, OctetItems(rest[..4]));
    if t0 + BLOCK_SYMBOLS - 3 < DeliveredAt(|psdu|) {
      AheadNext(r, x, w, psdu, bits, t0, rest, t1, q);
      LaterBlocks(x, w, psdu, bits, t0 + BLOCK_SYMBOLS, rest[4..], t1, q);
    } else {
      LastBlock(r, x, w, psdu, bits, t0, rest, t1, q);
    }
  }

  // ---------------------------------------------------------------------
  // The first block and the whole frame
  // ---------------------------------------------------------------------

  /** The first octet of the buffer from its first eight bits. */
  lemma FirstOctetHeld(buf: seq<bv8>, w: bv16, psdu: seq<bv8>, bits: seq<bool>)
    requires |buf| >= 1 && Carries(bits, ToOctets(w) + psdu)
    requires forall k :: 0 <= k < 8 ==> BufBit(buf, k) == bits[k]
    ensures buf[..1] == Stored(w, psdu)[..1]
  {
    OctetOfBits(buf, ToOctets(w) + psdu, 0);
  }

  /** The first block of the frame, taken on synchronisation: the decoder and the 13 bits it pushes. */
  lemma FirstBlockBits(s: FecSink, w: bv16, psdu: seq<bv8>, bits: seq<bool>, n: nat)
    requires n == BLOCK_SYMBOLS && Inv(s) && s.state == HaveSync && s.idx == 0
    requires s.dec.w0 == 0 && s.dec.w1 == 0 && s.dec.w2 == 0 && s.dec.w3 == 0
    requires BlockAt(s.rfBuf, bits, 0) && Carries(bits, ToOctets(w) + psdu)
    ensures FirstBlockStep(s).dec == DecoderAfter(Encode(bits), n)
    ensures forall k :: 0 <= k < 13 ==> BufBit(FirstBlockStep(s).buf, k) == bits[k]
    ensures FirstBlockStep(s).buf[..1] == Stored(w, psdu)[..1]
  {
    FirstBlockPushed(s, bits, n);
    FirstOctetHeld(FirstBlockStep(s).buf, w, psdu, bits);
  }

  /** The decoder and the bits the first block leaves, for the encoder output of `bits`. */
  lemma FirstBlockPushed(s: FecSink, bits: seq<bool>, n: nat)
    requires n == BLOCK_SYMBOLS && Inv(s) && s.state == HaveSync && s.idx == 0
    requires s.dec.w0 == 0 && s.dec.w1 == 0 && s.dec.w2 == 0 && s.dec.w3 == 0
    requires BlockAt(s.rfBuf, bits, 0)
    ensures FirstBlockStep(s).dec == DecoderAfter(Encode(bits), n)
    ensures forall k :: 0 <= k < 13 ==> BufBit(FirstBlockStep(s).buf, k) == bits[k]
  {
    var syms := Encode(bits);
    FirstBlockDecodes(s);
    assert syms[..n] == BlockSymbols(s.rfBuf);
    DecoderAfterPrefix(syms, n, n);
    DecodedPrefix(syms, n, n);
    DecodeEncodePrefix(bits, n);
  }

  /**
   * After the first block: one octet in, five bits of the next, the decoder the
   * reference one; `t` is the block's length, passed as a variable so that the
   * decoder is not unfolded symbol by symbol.
   */
  lemma FirstReceived(r: FecSink, w: bv16, psdu: seq<bv8>, bits: seq<bool>, t: nat, q: seq<Message>)
    requires t == BLOCK_SYMBOLS && Inv(r) && r.state == HaveSync && r.idx == 1 && Pos(r) == t - 3 && r.stop == NO_STOP
    requires r.queue == q && t <= |bits| && r.dec == DecoderAfter(Encode(bits), t)
    requires forall k :: 0 <= k < t - 3 ==> BufBit(r.buf, k) == bits[k]
    requires r.buf[..1] == Stored(w, psdu)[..1]
    ensures Received(r, w, psdu, bits, t, q)
  {
  }

  /** The first block of the frame, taken on synchronisation: decoding is under way, 13 bits pushed. */
  lemma FirstBlockCoded(s: FecSink, w: bv16, psdu: seq<bv8>, bits: seq<bool>, q: seq<Message>)
    requires Inv(s) && s.state == HaveSync && s.idx == 0 && s.queue == q
    requires s.dec.w0 == 0 && s.dec.w1 == 0 && s.dec.w2 == 0 && s.dec.w3 == 0
    requires BlockAt(s.rfBuf, bits, 0) && Carries(bits, ToOctets(w) + psdu)
    ensures Received(FirstBlockStep(s), w, psdu, bits, BLOCK_SYMBOLS, q) && BLOCK_SYMBOLS - 3 < DeliveredAt(|psdu|)
  {
    FirstBlockBits(s, w, psdu, bits, BLOCK_SYMBOLS);
    FirstReceived(FirstBlockStep(s), w, psdu, bits, BLOCK_SYMBOLS, q);
  }

  /** The items of a frame: those of its first block, the first flagged, then those of the other octets. */
  lemma FrameItemsSplit(air: seq<bv8>)
    requires |air| >= 4
    ensures FrameItems(air) == FrameItems(air[..4]) + OctetItems(air[4..])
  {
    var o, more := air[..4], air[4..];
    assert air == o + more;
    OctetItemsAppend(o, more);
    var items := OctetItems(o);
    assert OctetItems(air)[1..] == items[1..] + OctetItems(more);
  }

  /** The first block of a frame, from SYNC_SEARCH: decoding is under way after its 16 symbols. */
  lemma FirstBlock(s: FecSink, w: bv16, psdu: seq<bv8>, bits: seq<bool>, o: seq<bv8>)
    requires Inv(s) && s.state == SyncSearch && |o| == 4
    requires BlockAt(InterleaveU32(Word32(o)), bits, 0) && Sent(w, psdu, bits)
    ensures Received(RunOn(s, FrameItems(o)), w, psdu, bits, BLOCK_SYMBOLS, s.queue)
    ensures RunOn(s, FrameItems(o)).bitCnt == 0 && BLOCK_SYMBOLS - 3 < DeliveredAt(|psdu|)
  {
    var items := OctetItems(o);
    var x := items[0] | 2;
    FirstBlockItems(s, o);
    var s2 := Sync(s, x).(rfBuf := InterleaveU32(Word32(o)), bitCnt := 0);
    FirstBlockCoded(s2, w, psdu, bits, s.queue);
  }

  /** The blocks after the first of a frame on the air, ahead once the first is taken. */
  lemma FrameAhead(s: FecSink, w: bv16, psdu: seq<bv8>, bits: seq<bool>, air: seq<bv8>)
    requires Inv(s) && s.state == SyncSearch && Sent(w, psdu, bits)
    requires |air| > 0 && OnAir(air, bits, 0) && DeliveredAt(|psdu|) + 3 <= 4 * |air|
    ensures |air| >= 4
    ensures Ahead(RunOn(s, FrameItems(air[..4])), w, psdu, bits, BLOCK_SYMBOLS, air[4..], 4 * |air|, s.queue)
  {
    FirstBlock(s, w, psdu, bits, air[..4]);
  }

  /**
   * A whole coded frame: from SYNC_SEARCH, the flagged first channel bit and
   * the rest of the octets `air`, whose blocks carry the encoder output for
   * the frame PHR `w`, PSDU `psdu` (`bits` the encoder input), queue exactly
   * one record of type 1 with the PHR, the de-whitened PSDU and the CRC
   * verdict, and the deframer searches again.
   */
  lemma ReceiveCodedFrame(s: FecSink, w: bv16, psdu: seq<bv8>, bits: seq<bool>, air: seq<bv8>)
    requires Inv(s) && s.state == SyncSearch
    requires |psdu| == FrameLength(w) && Carries(bits, ToOctets(w) + psdu)
    requires |air| > 0 && OnAir(air, bits, 0) && DeliveredAt(|psdu|) + 3 <= 4 * |air|
    ensures Delivered(Run(s, FrameItems(air)), w, psdu, s.queue)
  {
    assert Sent(w, psdu, bits);
    FrameAhead(s, w, psdu, bits, air);
    FrameItemsSplit(air);
    RunAppend(s, FrameItems(air[..4]), OctetItems(air[4..]));
    LaterBlocks(RunOn(s, FrameItems(air[..4])), w, psdu, bits, BLOCK_SYMBOLS, air[4..], 4 * |air|, s.queue);
    Handed(RunOn(s, FrameItems(air)), w, psdu, bits, 4 * |air|, s.queue);
  }
}
