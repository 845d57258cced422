/**
 * The rate-1/2 non-recursive non-systematic convolutional code (NRNSC) of
 * section 18.1.2.4 of IEEE 802.15.4g-2012, as the transmitter encodes it
 * (`encode_bit` of lib/mrfsk_source_impl.cc) and as the FEC deframer decodes
 * it (`decode_ui` and `shift_weights` of lib/framer_sink_mrfsk_nrnsc_impl.cc).
 *
 * A coded symbol is two channel bits, the first one high: the code bits ui1
 * and ui0, each sent complemented. The decoder keeps four vote counters; each
 * symbol adds one vote to each, the counter leaving the window decides the bit,
 * three symbols late. With no channel error every vote agrees with the bit it
 * is for (DecodeEncode).
 */
module Nrnsc {

  // ---------------------------------------------------------------------
  // Encoder
  // ---------------------------------------------------------------------

  /** The encoder registers M2, M1, M0 and the current bit bi. */
  datatype Encoder = Encoder(m2: bool, m1: bool, m0: bool, bi: bool)

  /** The registers as the transmitter clears them before a frame. */
  const ENCODER_RESET: Encoder := Encoder(false, false, false, false)

  function Bit(b: bool): int { if b then 1 else 0 }

  /** The registers shifted by one data bit. */
  function Shifted(e: Encoder, bit: bool): (n: Encoder)
    ensures n.bi == bit && n.m0 == e.bi && n.m1 == e.m0 && n.m2 == e.m1
  {
    Encoder(e.m1, e.m0, e.bi, bit)
  }

  /** The first code bit: (bi + M1 + M2) mod 2. */
  predicate Ui1(e: Encoder) { (Bit(e.bi) + Bit(e.m1) + Bit(e.m2)) % 2 == 1 }

  /** The second code bit: (bi + M0 + M1 + M2) mod 2. */
  predicate Ui0(e: Encoder) { (Bit(e.bi) + Bit(e.m0) + Bit(e.m1) + Bit(e.m2)) % 2 == 1 }

  /** The channel symbol of the registers: ui1 then ui0, each complemented (a set code bit is sent as 0). */
  function Symbol(e: Encoder): (u: bv8)
    ensures u < 4
    ensures (u & 2 != 0) == !Ui1(e) && (u & 1 != 0) == !Ui0(e)
  {
    (if Ui1(e) then 0 else 2) | (if Ui0(e) then 0 else 1)
  }

  /** Bit `k` of the data, with the cleared registers standing in before the start. */
  function BitAt(bits: seq<bool>, k: int): bool
  {
    if 0 <= k < |bits| then bits[k] else false
  }

  /** The registers after encoding `bits[..n]` from the reset state. */
  function EncoderAfter(bits: seq<bool>, n: nat): Encoder
    requires n <= |bits|
  {
    if n == 0 then ENCODER_RESET else Shifted(EncoderAfter(bits, n - 1), bits[n - 1])
  }

  /** The registers hold the last four data bits. */
  lemma {:induction false} EncoderAfterHoldsBits(bits: seq<bool>, n: nat)
    requires n <= |bits|
    ensures EncoderAfter(bits, n) == Encoder(BitAt(bits, n - 4), BitAt(bits, n - 3), BitAt(bits, n - 2), BitAt(bits, n - 1))
  {
    if n > 0 {
      EncoderAfterHoldsBits(bits, n - 1);
    }
  }

  /** The symbols of `bits`, one per data bit, from the reset state. */
  function Encode(bits: seq<bool>): (syms: seq<bv8>)
    ensures |syms| == |bits|
  {
    if |bits| == 0 then [] else Encode(bits[..|bits| - 1]) + [Symbol(EncoderAfter(bits, |bits|))]
  }

  lemma EncoderAfterPrefix(bits: seq<bool>, m: nat, n: nat)
    requires n <= m <= |bits|
    ensures EncoderAfter(bits[..m], n) == EncoderAfter(bits, n)
  {
    EncoderAfterHoldsBits(bits[..m], n);
    EncoderAfterHoldsBits(bits, n);
  }

  /** Symbol `t` is the symbol of the registers once bit `t` is in. */
  lemma {:induction false} EncodeAt(bits: seq<bool>, t: nat)
    requires t < |bits|
    ensures Encode(bits)[t] == Symbol(EncoderAfter(bits, t + 1))
    decreases |bits|
  {
    var n := |bits|;
    if t < n - 1 {
      EncodeAt(bits[..n - 1], t);
      EncoderAfterPrefix(bits, n - 1, t + 1);
    }
  }

  // ---------------------------------------------------------------------
  // Decoder
  // ---------------------------------------------------------------------

  /** The four vote counters `weights[0..3]` and the two previous symbols `ppui`, `pui`. */
  datatype Decoder = Decoder(w0: int, w1: int, w2: int, w3: int, ppui: bv8, pui: bv8)

  /** The parity of a symbol's two bits, `(u >> 1) ^ (u & 1)` taken as a truth value. */
  predicate Par(u: bv8) { (u >> 1) ^ (u & 1) != 0 }

  /** `!(u >> 1) ^ (u & 1)` taken as a truth value. */
  predicate NotHiXorLo(u: bv8) { (if u >> 1 == 0 then 1 else 0) ^ (u & 1) != 0 }

  /** One vote: +1 for a one, -1 for a zero. */
  function Vote(b: bool): int { if b then 1 else -1 }

  /** The vote `decode_ui` casts for the newest bit, from the symbol and the two before it. */
  predicate W3Vote(u: bv8, pui: bv8, ppui: bv8)
  {
    if u & 2 != 0 then
      (if Par(pui) then NotHiXorLo(ppui) else Par(ppui))
    else
      (if Par(pui) then Par(ppui) else NotHiXorLo(ppui))
  }

  /**
   * `decode_ui(ui)`: one vote into each counter (the newest from W3Vote, the
   * others from the parity of the symbol two, one and zero steps back), then
   * the symbol history moves on.
   */
  function DecodeUi(d: Decoder, ui: bv8): (r: Decoder)
    ensures r.ppui == d.pui && r.pui == ui & 3
    ensures r.w0 == d.w0 + Vote(Par(d.ppui)) && r.w1 == d.w1 + Vote(Par(d.pui))
    ensures r.w2 == d.w2 + Vote(Par(ui & 3)) && r.w3 == d.w3 + Vote(W3Vote(ui & 3, d.pui, d.ppui))
  {
    var u := ui & 3;
    var w3 := if W3Vote(u, d.pui, d.ppui) then d.w3 + 1 else d.w3 - 1;
    var w2 := if Par(u) then d.w2 + 1 else d.w2 - 1;
    var w1 := if Par(d.pui) then d.w1 + 1 else d.w1 - 1;
    var w0 := if Par(d.ppui) then d.w0 + 1 else d.w0 - 1;
    Decoder(w0, w1, w2, w3, d.pui, u)
  }

  /** `shift_weights`: each counter moves down one place and a cleared one enters at the top. */
  function ShiftWeights(d: Decoder): (r: Decoder)
    ensures r.w0 == d.w1 && r.w1 == d.w2 && r.w2 == d.w3 && r.w3 == 0
    ensures r.ppui == d.ppui && r.pui == d.pui
  {
    d.(w0 := d.w1, w1 := d.w2, w2 := d.w3, w3 := 0)
  }

  /** The bit `push_bit` takes from the oldest counter: a one exactly when the votes for it are positive. */
  predicate DecidedBit(d: Decoder) { d.w0 > 0 }

  /** The counters as `work` clears them on a sync. */
  function Cleared(d: Decoder): (r: Decoder)
    ensures r.w0 == 0 && r.w1 == 0 && r.w2 == 0 && r.w3 == 0 && r.ppui == d.ppui && r.pui == d.pui
  {
    d.(w0 := 0, w1 := 0, w2 := 0, w3 := 0)
  }

  /**
   * The decoder after the symbols `syms[..t]` of a frame, in the order the
   * deframer takes them: the first two only seed the history, every later one
   * is decoded and the counters shifted.
   */
  function DecoderAfter(syms: seq<bv8>, t: nat): Decoder
    requires 2 <= t <= |syms|
  {
    if t == 2 then Decoder(0, 0, 0, 0, syms[0], syms[1])
    else ShiftWeights(DecodeUi(DecoderAfter(syms, t - 1), syms[t - 1]))
  }

  /** The bits pushed while the symbols `syms[..t]` are decoded: one per symbol from the fourth on. */
  function Decoded(syms: seq<bv8>, t: nat): (bits: seq<bool>)
    requires 2 <= t <= |syms|
    ensures |bits| == if t <= 3 then 0 else t - 3
  {
    if t <= 3 then []
    else Decoded(syms, t - 1) + [DecidedBit(DecodeUi(DecoderAfter(syms, t - 1), syms[t - 1]))]
  }

  /** The decoder after `t` symbols has read only those: any longer prefix of the stream gives the same. */
  lemma {:induction false} DecoderAfterPrefix(syms: seq<bv8>, m: nat, t: nat)
    requires 2 <= t <= m <= |syms|
    ensures DecoderAfter(syms[..m], t) == DecoderAfter(syms, t)
    decreases t
  {
    if t > 2 {
      DecoderAfterPrefix(syms, m, t - 1);
    }
  }

  /** The same for the bits pushed. */
  lemma {:induction false} DecodedPrefix(syms: seq<bv8>, m: nat, t: nat)
    requires 2 <= t <= m <= |syms|
    ensures Decoded(syms[..m], t) == Decoded(syms, t)
    decreases t
  {
    if t > 3 {
      DecodedPrefix(syms, m, t - 1);
      DecoderAfterPrefix(syms, m, t - 1);
    }
  }

  /** A counter's sign says the bit it is for: at least one vote up for a one, one down for a zero. */
  predicate Agrees(w: int, b: bool)
  {
    if b then w >= 1 else w <= -1
  }

  /** What a symbol shows of the registers: its parity is M0, its first bit is set when bi, M1, M2 have even parity. */
  lemma SymbolShows(e: Encoder)
    ensures Par(Symbol(e)) == e.m0
    ensures (Symbol(e) & 2 != 0) == (e.bi == (e.m1 != e.m2))
  {
  }

  /** The parity of the symbol for bit `t` is bit `t` - 1. */
  lemma ParOfSymbol(bits: seq<bool>, t: nat)
    requires t < |bits|
    ensures Par(Symbol(EncoderAfter(bits, t + 1))) == BitAt(bits, t - 1)
  {
    EncoderAfterHoldsBits(bits, t + 1);
    SymbolShows(EncoderAfter(bits, t + 1));
  }

  /** From its symbol and the two before it, W3Vote recovers bit `t`. */
  lemma W3VoteOfSymbols(bits: seq<bool>, t: nat)
    requires 2 <= t < |bits|
    ensures W3Vote(Symbol(EncoderAfter(bits, t + 1)), Symbol(EncoderAfter(bits, t)), Symbol(EncoderAfter(bits, t - 1))) == bits[t]
  {
    var e, e1, e2 := EncoderAfter(bits, t + 1), EncoderAfter(bits, t), EncoderAfter(bits, t - 1);
    EncoderAfterHoldsBits(bits, t + 1);
    EncoderAfterHoldsBits(bits, t);
    EncoderAfterHoldsBits(bits, t - 1);
    SymbolShows(e);
    SymbolShows(e1);
    SymbolShows(e2);
    assert e.bi == bits[t] && e.m1 == e1.m0 && e.m2 == e2.m0;
    W3VoteIsXor(Symbol(e), Symbol(e1), Symbol(e2));
  }

  /** On symbols the branches of W3Vote compute: the first bit is set exactly when the two parities differ. */
  lemma W3VoteIsXor(u: bv8, pui: bv8, ppui: bv8)
    requires u < 4 && pui < 4 && ppui < 4
    ensures W3Vote(u, pui, ppui) == ((u & 2 != 0) == (Par(pui) != Par(ppui)))
  {
  }

  /**
   * What the decoder holds after `t` >= 3 error-free symbols: the counters
   * agree with the three bits not yet pushed, the top one is clear, and the
   * history is the last two symbols.
   */
  ghost predicate Tracking(d: Decoder, bits: seq<bool>, t: nat)
    requires 2 <= t <= |bits|
  {
    var syms := Encode(bits);
    Agrees(d.w0, BitAt(bits, t - 3)) && Agrees(d.w1, bits[t - 2]) && Agrees(d.w2, bits[t - 1]) &&
    d.w3 == 0 && d.ppui == syms[t - 2] && d.pui == syms[t - 1]
  }

  /** The counters agree with the bits from the third symbol on. */
  lemma {:induction false} DecoderTracks(bits: seq<bool>, t: nat)
    requires 3 <= t <= |bits|
    ensures Tracking(DecoderAfter(Encode(bits), t), bits, t)
  {
    var syms := Encode(bits);
    EncodeAt(bits, t - 1);
    EncodeAt(bits, t - 2);
    EncodeAt(bits, t - 3);
    ParOfSymbol(bits, t - 1);
    ParOfSymbol(bits, t - 2);
    ParOfSymbol(bits, t - 3);
    W3VoteOfSymbols(bits, t - 1);
    if t > 3 {
      DecoderTracks(bits, t - 1);
    }
  }

  /** Decoding the symbol of bit `t` >= 3 pushes bit `t` - 3. */
  lemma DecodedBitAt(bits: seq<bool>, t: nat)
    requires 3 <= t < |bits|
    ensures DecidedBit(DecodeUi(DecoderAfter(Encode(bits), t), Encode(bits)[t])) == bits[t - 3]
  {
    DecoderTracks(bits, t);
    EncodeAt(bits, t - 2);
    ParOfSymbol(bits, t - 2);
  }

  /** The decoder returns the encoded bits, three symbols late. */
  lemma {:induction false} DecodeEncodePrefix(bits: seq<bool>, t: nat)
    requires 3 <= t <= |bits|
    ensures Decoded(Encode(bits), t) == bits[..t - 3]
  {
    if t > 3 {
      DecodeEncodePrefix(bits, t - 1);
      DecodedBitAt(bits, t - 1);
      assert bits[..t - 3] == bits[..t - 4] + [bits[t - 4]];
    }
  }

  /** Decoding a whole error-free stream gives back every bit but the last three (the tail). */
  lemma DecodeEncode(bits: seq<bool>)
    requires |bits| >= 3
    ensures Decoded(Encode(bits), |bits|) == bits[..|bits| - 3]
  {
    DecodeEncodePrefix(bits, |bits|);
  }
}
