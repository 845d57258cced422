/**
 * The packet generator of lib/mrfsk_source_impl.cc. `generate_packet` writes
 * a whole over-the-air packet into `rf_buf`: preamble octets, the SFD, then
 * the PHR and PSDU either as they are or NRNSC-coded with the three tail bits
 * and the pad, every 32 code bits interleaved; `work` sends that buffer one
 * octet per output item, with start-up filler, gaps and power-amplifier tags
 * around it.
 *
 * This module says what the buffer holds (FecAir) and how `encode_bit` gets
 * there step by step; the class SourceBlock of MrfskSourceImpl builds it the
 * way the code does and is proved against these functions.
 */
module MrfskSource {
  import opened Primitives
  import opened Phr
  import opened Frame
  import opened Nrnsc
  import opened Bits

  /** `rf_buf`: 32 + 4096 + 4 octets. */
  const RF_BUF_SIZE: nat := 4132

  /** `phr_psdu_buf`: the PHR and at most 2048 PSDU octets. */
  const PHR_PSDU_BUF_SIZE: nat := 2050

  /** Filler octets sent before the first packet while the radio starts. */
  const STARTUP_OCTETS: int := 50
  const STARTUP_FILL: bv8 := 0xFF
  const PREAMBLE_OCTET: bv8 := 0x55

  /** The three zero bits that flush the encoder after the frame. */
  const TAIL: seq<bool> := [false, false, false]

  /** The pad after the tail when the PHR and PSDU have an odd number of octets. */
  const PAD_ODD: seq<bool> := [false, true, false, true, true]

  /** The pad after the tail when they have an even number of octets. */
  const PAD_EVEN: seq<bool> :=
    [false, true, false, true, true, false, false, false, false, true, false, true, true]

  // ---------------------------------------------------------------------
  // What goes on the air
  // ---------------------------------------------------------------------

  /** The start-of-frame delimiter: its first octet tells a coded frame from an uncoded one. */
  function Sfd(fec: bool): (sfd: seq<bv8>)
    ensures |sfd| == 2 && sfd[1] == 0x4E
    ensures sfd[0] == if fec then 0x6F else 0x90
  {
    if fec then [0x6F, 0x4E] else [0x90, 0x4E]
  }

  /** `preamble_bytes` octets of 0x55 (none when the setting is not positive). */
  function Preamble(preambleBytes: int): (p: seq<bv8>)
    ensures |p| == if preambleBytes < 0 then 0 else preambleBytes
    ensures forall i :: 0 <= i < |p| ==> p[i] == PREAMBLE_OCTET
  {
    seq(if preambleBytes < 0 then 0 else preambleBytes, _ => PREAMBLE_OCTET)
  }

  /** The octets of preamble and SFD. */
  /** Writing one more preamble octet over a buffer that starts with the preamble. */
  lemma PreambleNext(b: seq<bv8>, i: nat)
    requires i < |b|
    ensures (Preamble(i) + b[i..])[i := PREAMBLE_OCTET] == Preamble(i + 1) + b[i + 1..]
  {
    var s := (Preamble(i) + b[i..])[i := PREAMBLE_OCTET];
    assert forall j | 0 <= j < |s| :: s[j] == (Preamble(i + 1) + b[i + 1..])[j];
  }

  function HeaderLength(preambleBytes: int): nat
  {
    (if preambleBytes < 0 then 0 else preambleBytes) + 2
  }

  function Header(preambleBytes: int, fec: bool): (h: seq<bv8>)
    ensures |h| == HeaderLength(preambleBytes)
  {
    Preamble(preambleBytes) + Sfd(fec)
  }

  /**
   * The preamble followed by the two SFD octets, stored over `b0`, is the
   * header followed by the rest of `b0`.
   */
  lemma HeaderPut(b0: seq<bv8>, b1: seq<bv8>, preambleBytes: int, fec: bool, x: bv8, y: bv8)
    requires HeaderLength(preambleBytes) <= |b0| && b1 == Preamble(preambleBytes) + b0[HeaderLength(preambleBytes) - 2..]
    requires [x, y] == Sfd(fec)
    ensures var at := HeaderLength(preambleBytes) - 2;
      b1[at := x][at + 1 := y] == Header(preambleBytes, fec) + b0[at + 2..]
  {
    var at := HeaderLength(preambleBytes) - 2;
    assert b1[at := x][at + 1 := y] == b1[..at] + [x, y] + b1[at + 2..];
    assert b1[..at] == Preamble(preambleBytes);
    assert b1[at + 2..] == b0[at + 2..];
  }

  /** A word stored most significant octet first replaces the four octets at `i`. */
  lemma PutWord(b: seq<bv8>, i: int, w: bv32)
    requires 0 <= i && i + 4 <= |b|
    ensures var e := BigEndian32(w);
      b[i := e[0]][i + 1 := e[1]][i + 2 := e[2]][i + 3 := e[3]] == b[..i] + e + b[i + 4..]
  {
  }

  /** The pad for `octets` octets of PHR and PSDU. */
  function Pad(octets: int): (pad: seq<bool>)
    ensures |pad| == if octets % 2 == 1 then 5 else 13
  {
    if octets % 2 == 1 then PAD_ODD else PAD_EVEN
  }

  /** The bits of one octet, most significant first. */
  function ByteBits(x: bv8): (bits: seq<bool>)
    ensures |bits| == 8
  {
    seq(8, k requires 0 <= k < 8 => x & Mask(k) != 0)
  }

  /** The bits of the octets, each most significant first. */
  function OctetBits(data: seq<bv8>): (bits: seq<bool>)
    ensures |bits| == 8 * |data|
  {
    if |data| == 0 then [] else ByteBits(data[0]) + OctetBits(data[1..])
  }

  /** The bits `generate_packet` feeds the encoder: the frame, the tail, the pad. */
  function FecBits(data: seq<bv8>): (bits: seq<bool>)
    ensures |bits| == 8 * |data| + 3 + |Pad(|data|)|
    ensures bits[..8 * |data|] == OctetBits(data)
  {
    OctetBits(data) + TAIL + Pad(|data|)
  }

  /** Tail and pad together are the octet 0x0B, twice when the frame length is even. */
  function PadOctets(octets: int): (p: seq<bv8>)
    ensures |p| == if octets % 2 == 1 then 1 else 2
  {
    if octets % 2 == 1 then [0x0B] else [0x0B, 0x0B]
  }

  /** Bit `k` of octet `i` is bit 8`i` + `k` of the stream, the one under `Mask(k)`. */
  lemma {:induction false} OctetBitsAt(data: seq<bv8>, i: int, k: int)
    requires 0 <= i < |data| && 0 <= k < 8
    ensures OctetBits(data)[8 * i + k] == (data[i] & Mask(k) != 0)
    decreases i
  {
    if i > 0 {
      OctetBitsAt(data[1..], i - 1, k);
      assert OctetBits(data)[8 * i + k] == OctetBits(data[1..])[8 * (i - 1) + k];
    }
  }

  /** The bits of `a` + `b` are those of `a`, then those of `b`. */
  lemma {:induction false} OctetBitsAppend(a: seq<bv8>, b: seq<bv8>)
    ensures OctetBits(a + b) == OctetBits(a) + OctetBits(b)
    decreases |a|
  {
    if |a| == 0 {
      assert a + b == b;
    } else {
      OctetBitsAppend(a[1..], b);
      assert (a + b)[1..] == a[1..] + b;
    }
  }

  /** Tail and pad are the bits of the pad octets. */
  lemma PadBits(octets: int)
    ensures TAIL + Pad(octets) == OctetBits(PadOctets(octets))
  {
    var eleven := [false, false, false, false, true, false, true, true];
    assert OctetBits([0x0B]) == eleven by {
      assert OctetBits([0x0B]) == ByteBits(0x0B) + OctetBits([]);
    }
    if octets % 2 == 1 {
      assert TAIL + PAD_ODD == eleven;
    } else {
      OctetBitsAppend([0x0B], [0x0B]);
      assert [0x0B as bv8] + [0x0B] == [0x0B, 0x0B];
      assert TAIL + PAD_EVEN == eleven + eleven;
    }
  }

  /**
   * The coded bit stream is the frame followed by one or two octets 0x0B, so
   * it always holds an even number of octets: a whole number of 32-bit code
   * blocks (each data bit gives two code bits).
   */
  lemma FecBitsAreOctets(data: seq<bv8>)
    ensures FecBits(data) == OctetBits(data + PadOctets(|data|))
    ensures (|data| + |PadOctets(|data|)|) % 2 == 0 && |FecBits(data)| % 16 == 0
  {
    var a := OctetBits(data);
    var p := PadOctets(|data|);
    OctetBitsAppend(data, p);
    PadBits(|data|);
    assert a + TAIL + Pad(|data|) == a + (TAIL + Pad(|data|));
    FecBitsEven(data);
  }

  /** Frame, tail and pad make a whole number of two-octet blocks. */
  lemma FecBitsEven(data: seq<bv8>)
    ensures (|data| + |PadOctets(|data|)|) % 2 == 0 && |FecBits(data)| % 16 == 0
  {
    var h := |data| / 2;
    if |data| % 2 == 1 {
      assert |data| == 2 * h + 1 && |FecBits(data)| == 16 * h + 16;
    } else {
      assert |data| == 2 * h && |FecBits(data)| == 16 * h + 16;
    }
  }

  // ---------------------------------------------------------------------
  // Coded octets
  // ---------------------------------------------------------------------

  /** Code bit `p` of a symbol stream: the high bit of each symbol, then the low one. */
  predicate CodeBit(syms: seq<bv8>, p: int)
    requires 0 <= p < 2 * |syms|
  {
    if p % 2 == 0 then syms[p / 2] & 2 != 0 else syms[p / 2] & 1 != 0
  }

  /** Four two-bit symbols in one octet, the first in the top bits. */
  function PackByte(a: bv8, b: bv8, c: bv8, d: bv8): bv8
  {
    (a << 6) | (b << 4) | (c << 2) | d
  }

  /** The symbols packed four to an octet. */
  function CodeBytes(syms: seq<bv8>): (code: seq<bv8>)
    ensures |code| == |syms| / 4
    decreases |syms|
  {
    if |syms| < 4 then [] else [PackByte(syms[0], syms[1], syms[2], syms[3])] + CodeBytes(syms[4..])
  }

  /** Code octet `q` packs symbols 4`q` to 4`q` + 3. */
  lemma {:induction false} CodeBytesAt(syms: seq<bv8>, q: nat)
    requires 4 * q + 4 <= |syms|
    ensures q < |CodeBytes(syms)|
    ensures CodeBytes(syms)[q] == PackByte(syms[4 * q], syms[4 * q + 1], syms[4 * q + 2], syms[4 * q + 3])
    decreases q
  {
    if q > 0 {
      var rest := syms[4..];
      CodeBytesAt(rest, q - 1);
      assert rest[4 * (q - 1)] == syms[4 * q] && rest[4 * (q - 1) + 1] == syms[4 * q + 1];
      assert rest[4 * (q - 1) + 2] == syms[4 * q + 2] && rest[4 * (q - 1) + 3] == syms[4 * q + 3];
    }
  }

  /** An octet whose eight bits are four symbols' code bits is those symbols packed. */
  lemma PackedByte(x: bv8, a: bv8, b: bv8, c: bv8, d: bv8)
    requires a < 4 && b < 4 && c < 4 && d < 4
    requires (x & 0x80 != 0) == (a & 2 != 0) && (x & 0x40 != 0) == (a & 1 != 0)
    requires (x & 0x20 != 0) == (b & 2 != 0) && (x & 0x10 != 0) == (b & 1 != 0)
    requires (x & 0x08 != 0) == (c & 2 != 0) && (x & 0x04 != 0) == (c & 1 != 0)
    requires (x & 0x02 != 0) == (d & 2 != 0) && (x & 0x01 != 0) == (d & 1 != 0)
    ensures x == PackByte(a, b, c, d)
  {
  }

  /** `interleave` on four octets: the permutation of their big-endian word. */
  function InterleaveBlock(b: seq<bv8>): (r: seq<bv8>)
    requires |b| == 4
    ensures |r| == 4
  {
    BigEndian32(Interleave(Word32(b)))
  }

  /** Read back as a big-endian word, the interleaved block is the permuted word. */
  lemma InterleaveBlockWord(b: seq<bv8>)
    requires |b| == 4
    ensures Word32(InterleaveBlock(b)) == Interleave(Word32(b))
  {
    Word32BigEndian(Interleave(Word32(b)));
  }

  /** The octets with their first `nb` four-octet blocks interleaved, one after the other. */
  function Interleaved(code: seq<bv8>, nb: nat): (r: seq<bv8>)
    requires 4 * nb <= |code|
    ensures |r| == |code|
    decreases nb
  {
    if nb == 0 then code
    else
      var r := Interleaved(code, nb - 1);
      r[..4 * (nb - 1)] + InterleaveBlock(code[4 * (nb - 1)..4 * nb]) + r[4 * nb..]
  }

  /** The octets after the first `nb` blocks are untouched. */
  lemma {:induction false} InterleavedTail(code: seq<bv8>, nb: nat)
    requires 4 * nb <= |code|
    ensures Interleaved(code, nb)[4 * nb..] == code[4 * nb..]
    decreases nb
  {
    if nb > 0 {
      InterleavedTail(code, nb - 1);
      var r := Interleaved(code, nb - 1);
      assert r[4 * nb..] == r[4 * (nb - 1)..][4..];
    }
  }

  /** Block `b` of the first `nb` is the same block of the input, interleaved. */
  lemma {:induction false} InterleavedBlock(code: seq<bv8>, nb: nat, b: nat)
    requires 4 * nb <= |code| && b < nb
    ensures Interleaved(code, nb)[4 * b..4 * b + 4] == InterleaveBlock(code[4 * b..4 * b + 4])
    decreases nb
  {
    var r := Interleaved(code, nb - 1);
    var s := Interleaved(code, nb);
    if b < nb - 1 {
      InterleavedBlock(code, nb - 1, b);
      assert s[4 * b..4 * b + 4] == r[4 * b..4 * b + 4];
    } else {
      assert s[4 * b..4 * b + 4] == InterleaveBlock(code[4 * b..4 * b + 4]);
    }
  }

  /** Frame, tail and pad make a whole number of 16-bit (32 code bit) blocks: one per two frame octets, and one more. */
  lemma FecBitsBlocks(data: seq<bv8>)
    ensures |FecBits(data)| == 16 * (|data| / 2 + 1)
  {
    var n := |data|;
    assert n == 2 * (n / 2) + n % 2;
  }

  /**
   * The coded octets for `bits` (a whole number of `blocks` blocks of 16 data
   * bits) when `room` octets of `rf_buf` are left after the SFD. When the code
   * does not fit, `encode_bit` stops at the octet that fills the buffer: the
   * buffer is then full, and the last block, complete or not, is not
   * interleaved.
   */
  function CodedAir(bits: seq<bool>, blocks: nat, room: int): (air: seq<bv8>)
    requires |bits| == 16 * blocks && room >= 1
    ensures |air| == if 4 * blocks < room then 4 * blocks else room
  {
    var code := CodeBytes(Encode(bits));
    if 4 * blocks < room then Interleaved(code, blocks)
    else Interleaved(code, (room - 1) / 4)[..room]
  }

  /** The number of data bits encoded when `room` octets are left: all of them, or four per octet up to the end of `rf_buf`. */
  function Consumed(bits: seq<bool>, blocks: nat, room: int): (n: nat)
    requires |bits| == 16 * blocks && room >= 1
    ensures n <= |bits|
  {
    if 4 * blocks < room then |bits| else 4 * room
  }

  /** The coded part of the packet for the frame `data` when `room` octets are left. */
  function FecAir(data: seq<bv8>, room: int): (air: seq<bv8>)
    requires room >= 1
    ensures |air| == if 4 * (|data| / 2 + 1) < room then 4 * (|data| / 2 + 1) else room
  {
    FecBitsBlocks(data);
    CodedAir(FecBits(data), |data| / 2 + 1, room)
  }

  /** The number of frame, tail and pad bits encoded for the frame when `room` octets are left. */
  function FecConsumed(data: seq<bv8>, room: int): (n: nat)
    requires room >= 1
    ensures n <= |FecBits(data)|
  {
    FecBitsBlocks(data);
    Consumed(FecBits(data), |data| / 2 + 1, room)
  }

  /** Coded, the frame takes twice its own octets plus two or four for tail and pad. */
  lemma FecAirLength(data: seq<bv8>)
    ensures |FecBits(data)| / 4 == 2 * |data| + (if |data| % 2 == 1 then 2 else 4)
  {
    FecBitsBlocks(data);
    var n := |data|;
    assert n == 2 * (n / 2) + n % 2;
  }

  // ---------------------------------------------------------------------
  // The encoder writing into rf_buf
  // ---------------------------------------------------------------------

  /** What `encode_bit` works on: the registers, `rf_buf`, `rf_buf_len` and the bit mask `rf_bp`. */
  datatype Coder = Coder(enc: Encoder, buf: seq<bv8>, len: int, bp: bv8)

  /** The mask points at a bit of an octet inside `rf_buf`. */
  predicate Writable(c: Coder)
  {
    |c.buf| == RF_BUF_SIZE && 0 <= c.len < RF_BUF_SIZE && IsMask(c.bp)
  }

  /** One code bit written under the mask; the mask moves on, closing the octet after its last bit. */
  function PutCodeBit(c: Coder, v: bool): (r: Coder)
    requires Writable(c)
    ensures |r.buf| == RF_BUF_SIZE && IsMask(r.bp) && r.enc == c.enc
  {
    var buf := c.buf[c.len := SetBit(c.buf[c.len], c.bp, v)];
    if c.bp >> 1 == 0 then c.(buf := buf, bp := 0x80, len := c.len + 1)
    else c.(buf := buf, bp := c.bp >> 1)
  }

  /**
   * `encode_bit`: the data bit shifted into the registers, then the code bits
   * ui1 and ui0 written complemented. The second result is false, the -1
   * return, when an octet closes at the end of `rf_buf`.
   */
  function EncodeBitF(c: Coder, bit: bool): (Coder, bool)
    requires Writable(c)
  {
    var e := Shifted(c.enc, bit);
    var c1 := PutCodeBit(c.(enc := e), !Ui1(e));
    if c1.len >= RF_BUF_SIZE then (c1, false)
    else
      var c2 := PutCodeBit(c1, !Ui0(e));
      (c2, c2.len < RF_BUF_SIZE)
  }

  /** The coder after `encode_bit`. */
  function NextCoder(c: Coder, bit: bool): Coder
    requires Writable(c)
  {
    EncodeBitF(c, bit).0
  }

  /** `encode_bit` as its two code-bit writes: the second only when the first did not fill the buffer. */
  lemma EncodeBitSteps(c: Coder, bit: bool)
    requires Writable(c)
    ensures var e := Shifted(c.enc, bit);
      var c1 := PutCodeBit(c.(enc := e), !Ui1(e));
      (c1.len >= RF_BUF_SIZE ==> EncodeBitF(c, bit) == (c1, false)) &&
      (c1.len < RF_BUF_SIZE ==> Writable(c1) && EncodeBitF(c, bit) == (PutCodeBit(c1, !Ui0(e)), PutCodeBit(c1, !Ui0(e)).len < RF_BUF_SIZE))
  {
  }

  /** Under any mask but the last, a code bit leaves the octet open and moves the mask one bit on. */
  lemma PutCodeBitMoves(c: Coder, v: bool, j: int)
    requires Writable(c) && 0 <= j < 7 && c.bp == Mask(j)
    ensures PutCodeBit(c, v) == c.(buf := c.buf[c.len := SetBit(c.buf[c.len], Mask(j), v)], bp := Mask(j + 1))
  {
    assert Mask(j) >> 1 == Mask(j + 1) by {
      if j == 0 {} else if j == 1 {} else if j == 2 {} else if j == 3 {} else if j == 4 {} else if j == 5 {} else {}
    }
  }

  /** Under the last mask, a code bit closes the octet. */
  lemma PutCodeBitCloses(c: Coder, v: bool)
    requires Writable(c) && c.bp == Mask(7)
    ensures PutCodeBit(c, v) == c.(buf := c.buf[c.len := SetBit(c.buf[c.len], Mask(7), v)], bp := 0x80, len := c.len + 1)
  {
    assert c.bp >> 1 == 0;
  }

  /**
   * With the mask on an even bit, `encode_bit` writes one symbol: the two
   * complemented code bits go under that mask and the next one, in the same
   * octet, and the octet is closed when they were its last two bits.
   */
  lemma EncodeBitWrites(c: Coder, bit: bool, s: int)
    requires Writable(c) && 0 <= s < 4 && c.bp == Mask(2 * s)
    ensures var e := Shifted(c.enc, bit);
      var r := Coder(e, c.buf[c.len := SetBit(SetBit(c.buf[c.len], Mask(2 * s), !Ui1(e)), Mask(2 * s + 1), !Ui0(e))],
                     if s == 3 then c.len + 1 else c.len, if s == 3 then 0x80 else Mask(2 * s + 2));
      EncodeBitF(c, bit) == (r, r.len < RF_BUF_SIZE)
  {
    if s == 3 {
      EncodeBitCloses(c, bit, s);
    } else {
      EncodeBitStays(c, bit, s);
    }
  }

  /** EncodeBitWrites on the last symbol of an octet. */
  lemma EncodeBitCloses(c: Coder, bit: bool, s: int)
    requires Writable(c) && s == 3 && c.bp == Mask(2 * s)
    ensures var e := Shifted(c.enc, bit);
      var r := Coder(e, c.buf[c.len := SetBit(SetBit(c.buf[c.len], Mask(2 * s), !Ui1(e)), Mask(2 * s + 1), !Ui0(e))],
                     c.len + 1, 0x80);
      EncodeBitF(c, bit) == (r, r.len < RF_BUF_SIZE)
  {
    var e := Shifted(c.enc, bit);
    var c0 := c.(enc := e);
    PutCodeBitMoves(c0, !Ui1(e), 2 * s);
    var c1 := PutCodeBit(c0, !Ui1(e));
    TwoBits(c.buf, c.len, Mask(2 * s), Mask(2 * s + 1), !Ui1(e), !Ui0(e));
    PutCodeBitCloses(c1, !Ui0(e));
  }

  /** EncodeBitWrites on the first three symbols of an octet. */
  lemma EncodeBitStays(c: Coder, bit: bool, s: int)
    requires Writable(c) && 0 <= s < 3 && c.bp == Mask(2 * s)
    ensures var e := Shifted(c.enc, bit);
      var r := Coder(e, c.buf[c.len := SetBit(SetBit(c.buf[c.len], Mask(2 * s), !Ui1(e)), Mask(2 * s + 1), !Ui0(e))],
                     c.len, Mask(2 * s + 2));
      EncodeBitF(c, bit) == (r, r.len < RF_BUF_SIZE)
  {
    var e := Shifted(c.enc, bit);
    var c0 := c.(enc := e);
    PutCodeBitMoves(c0, !Ui1(e), 2 * s);
    var c1 := PutCodeBit(c0, !Ui1(e));
    TwoBits(c.buf, c.len, Mask(2 * s), Mask(2 * s + 1), !Ui1(e), !Ui0(e));
    PutCodeBitMoves(c1, !Ui0(e), 2 * s + 1);
  }

  /** Two bits set one after the other in the same octet of a buffer. */
  lemma TwoBits(b: seq<bv8>, i: int, m1: bv8, m2: bv8, v1: bool, v2: bool)
    requires 0 <= i < |b|
    ensures var b1 := b[i := SetBit(b[i], m1, v1)];
      b1[i := SetBit(b1[i], m2, v2)] == b[i := SetBit(SetBit(b[i], m1, v1), m2, v2)]
  {
    var b1 := b[i := SetBit(b[i], m1, v1)];
    assert b1[i] == SetBit(b[i], m1, v1);
  }

  /** The bits of an octet taken by its first 0, 1, 2, 3 and 4 symbols. */
  const SYMBOL_TOPS: seq<bv8> := [0x00, 0xC0, 0xF0, 0xFC, 0xFF]

  /** The octet whose first `s` symbols (two bits each, from the top) are those of `x`, and whose other bits are those of `y`. */
  function Merge(x: bv8, y: bv8, s: int): bv8
    requires 0 <= s <= 4
  {
    (x & SYMBOL_TOPS[s]) | (y & !SYMBOL_TOPS[s])
  }

  /** Writing the next symbol's two bits of `x` over a merged octet merges one symbol more. */
  lemma MergeStep(x: bv8, y: bv8, s: int)
    requires 0 <= s < 4
    ensures SetBit(SetBit(Merge(x, y, s), Mask(2 * s), x & Mask(2 * s) != 0), Mask(2 * s + 1), x & Mask(2 * s + 1) != 0)
      == Merge(x, y, s + 1)
  {
    if s == 0 {
      assert SYMBOL_TOPS[0] == 0x00 && SYMBOL_TOPS[1] == 0xC0;
    } else if s == 1 {
      assert SYMBOL_TOPS[1] == 0xC0 && SYMBOL_TOPS[2] == 0xF0;
    } else if s == 2 {
      assert SYMBOL_TOPS[2] == 0xF0 && SYMBOL_TOPS[3] == 0xFC;
    } else {
      assert SYMBOL_TOPS[3] == 0xFC && SYMBOL_TOPS[4] == 0xFF;
    }
  }

  /** The bits of a packed octet are the bits of its symbols. */
  lemma PackedSymbolBits(syms: seq<bv8>, i: nat, k: nat)
    requires i + 4 <= |syms| && 0 <= k < 4
    requires syms[i] < 4 && syms[i + 1] < 4 && syms[i + 2] < 4 && syms[i + 3] < 4
    ensures var x := PackByte(syms[i], syms[i + 1], syms[i + 2], syms[i + 3]);
      (x & Mask(2 * k) != 0) == (syms[i + k] & 2 != 0) && (x & Mask(2 * k + 1) != 0) == (syms[i + k] & 1 != 0)
  {
    var a, b, c, d := syms[i], syms[i + 1], syms[i + 2], syms[i + 3];
    if k == 0 {
      assert (PackByte(a, b, c, d) & 0x80 != 0) == (a & 2 != 0) && (PackByte(a, b, c, d) & 0x40 != 0) == (a & 1 != 0);
    } else if k == 1 {
      assert (PackByte(a, b, c, d) & 0x20 != 0) == (b & 2 != 0) && (PackByte(a, b, c, d) & 0x10 != 0) == (b & 1 != 0);
    } else if k == 2 {
      assert (PackByte(a, b, c, d) & 0x08 != 0) == (c & 2 != 0) && (PackByte(a, b, c, d) & 0x04 != 0) == (c & 1 != 0);
    } else {
      assert (PackByte(a, b, c, d) & 0x02 != 0) == (d & 2 != 0) && (PackByte(a, b, c, d) & 0x01 != 0) == (d & 1 != 0);
    }
  }

  /**
   * `rf_buf` once `q` code octets and `k` symbols of the next are written
   * from octet `start` on: `base` before `start`; the first `q` octets of
   * `ilv` (the code octets, some blocks already interleaved); the octet being
   * filled, whose bits not yet written are still those of `base`; then `base`.
   */
  function Written(base: seq<bv8>, start: int, ilv: seq<bv8>, code: seq<bv8>, q: nat, k: nat): (buf: seq<bv8>)
    requires |base| == RF_BUF_SIZE && 0 <= start && |ilv| == |code| && 0 <= k < 4
    requires if k == 0 then start + q <= RF_BUF_SIZE && q <= |code| else start + q < RF_BUF_SIZE && q < |code|
    ensures |buf| == RF_BUF_SIZE
  {
    if k == 0 then base[..start] + ilv[..q] + base[start + q..]
    else base[..start] + ilv[..q] + [Merge(code[q], base[start + q], k)] + base[start + q + 1..]
  }

  /** Replacing the octet between two runs. */
  lemma ReplaceBetween(pre: seq<bv8>, x: bv8, y: bv8, rest: seq<bv8>)
    ensures (pre + [x] + rest)[|pre| := y] == pre + [y] + rest
    ensures (pre + [x] + rest)[|pre|] == x
  {
  }

  /** With no symbol of the octet at `start` + `q` written, it is still the one of `base`. */
  lemma WrittenNone(base: seq<bv8>, start: int, ilv: seq<bv8>, code: seq<bv8>, q: nat)
    requires |base| == RF_BUF_SIZE && 0 <= start && start + q < RF_BUF_SIZE
    requires |ilv| == |code| && q < |code|
    ensures Written(base, start, ilv, code, q, 0) ==
      base[..start] + ilv[..q] + [Merge(code[q], base[start + q], 0)] + base[start + q + 1..]
  {
    assert SYMBOL_TOPS[0] == 0x00;
    assert base[start + q..] == [base[start + q]] + base[start + q + 1..];
  }

  /** Coding one more data bit changes the octet being filled, and only it. */
  lemma WrittenStep(base: seq<bv8>, start: int, ilv: seq<bv8>, code: seq<bv8>, q: nat, k: nat)
    requires |base| == RF_BUF_SIZE && 0 <= start && start + q < RF_BUF_SIZE && 0 <= k < 4
    requires |ilv| == |code| && q < |code| && ilv[q] == code[q]
    ensures var j := start + q; var m := Merge(code[q], base[j], k + 1);
      Written(base, start, ilv, code, q, k)[j] == Merge(code[q], base[j], k) &&
      (if k == 3 then Written(base, start, ilv, code, q + 1, 0) else Written(base, start, ilv, code, q, k + 1))
        == Written(base, start, ilv, code, q, k)[j := m]
  {
    var j := start + q;
    var pre := base[..start] + ilv[..q];
    var m := Merge(code[q], base[j], k + 1);
    if k == 0 {
      WrittenNone(base, start, ilv, code, q);
    }
    ReplaceBetween(pre, Merge(code[q], base[j], k), m, base[j + 1..]);
    if k == 3 {
      assert m == code[q];
      assert ilv[..q + 1] == ilv[..q] + [m];
    }
  }

  /**
   * The state of the coded part of `generate_packet` after the first `n`
   * data bits of `bits`, which make `q` code octets and `k` symbols, whose
   * code octets are `code`, started at octet `start` of a buffer that held
   * `base`: the registers hold those bits, the mask is on the next code bit,
   * and of the code the first `nb` blocks are written and interleaved, the
   * octets after them written as they are.
   */
  ghost predicate Encoded(c: Coder, base: seq<bv8>, start: int, bits: seq<bool>, code: seq<bv8>, n: nat, q: nat, k: nat, nb: nat)
  {
    match c
    case Coder(enc, buf, len, bp) =>
      |base| == RF_BUF_SIZE && 0 <= start && 4 * |code| == |bits| && 0 <= k < 4 && n == 4 * q + k && n <= |bits| &&
      4 * nb <= q <= 4 * nb + 4 && (q == 4 * nb + 4 ==> k == 0) &&
      (if k == 0 then start + q <= RF_BUF_SIZE else start + q < RF_BUF_SIZE) &&
      len == start + q && bp == Mask(2 * k) && enc == EncoderAfter(bits, n) &&
      buf == Written(base, start, Interleaved(code, nb), code, q, k)
  }

  /**
   * A trigger that no proof mentions except the lemmas below that look inside
   * Coding and FecHeld: the methods of the source block carry those two from
   * call to call, and the solver need not unfold them there.
   */
  predicate Exposed(c: Coder, n: int) { true }

  /** The same for FecHeld, kept apart so that proving one does not unfold the other. */
  predicate ExposedAir(c: Coder, n: int) { true }

  /** Encoded, held behind Exposed. */
  ghost predicate Coding(c: Coder, base: seq<bv8>, start: int, bits: seq<bool>, code: seq<bv8>, n: nat, q: nat, k: nat, nb: nat)
  {
    forall z {:trigger Exposed(c, z)} :: Exposed(c, z) ==> Encoded(c, base, start, bits, code, n, q, k, nb)
  }

  /** HoldsFecAir, held behind Exposed. */
  ghost predicate FecHeld(c: Coder, base: seq<bv8>, start: int, data: seq<bv8>)
  {
    forall z {:trigger ExposedAir(c, z)} :: ExposedAir(c, z) ==> |base| == RF_BUF_SIZE && 0 <= start < RF_BUF_SIZE && HoldsFecAir(c, base, start, data)
  }

  /** FecHeld from what it holds. */
  lemma FecHeldClose(c: Coder, base: seq<bv8>, start: int, data: seq<bv8>)
    requires |base| == RF_BUF_SIZE && 0 <= start < RF_BUF_SIZE && HoldsFecAir(c, base, start, data)
    ensures FecHeld(c, base, start, data)
  {
  }

  /** Coding from what it holds. */
  lemma CodingClose(c: Coder, base: seq<bv8>, start: int, bits: seq<bool>, code: seq<bv8>, n: nat, q: nat, k: nat, nb: nat)
    requires Encoded(c, base, start, bits, code, n, q, k, nb)
    ensures Coding(c, base, start, bits, code, n, q, k, nb)
  {
  }

  /** What FecHeld holds. */
  lemma FecHeldOpen(c: Coder, base: seq<bv8>, start: int, data: seq<bv8>)
    requires FecHeld(c, base, start, data)
    ensures |base| == RF_BUF_SIZE && 0 <= start < RF_BUF_SIZE && HoldsFecAir(c, base, start, data)
  {
    assert ExposedAir(c, 0);
  }

  /** Before the first bit: registers cleared, mask on the first bit of octet `start`. */
  lemma EncodedStart(base: seq<bv8>, start: int, bits: seq<bool>, code: seq<bv8>)
    requires |base| == RF_BUF_SIZE && 0 <= start < RF_BUF_SIZE && 4 * |code| == |bits|
    ensures Coding(Coder(ENCODER_RESET, base, start, 0x80), base, start, bits, code, 0, 0, 0, 0)
  {
    assert base[..start] + base[start..] == base;
  }

  /** Past the interleaved blocks, an octet is the code octet itself. */
  lemma InterleavedAfter(code: seq<bv8>, nb: nat, q: int)
    requires 4 * nb <= q < |code|
    ensures Interleaved(code, nb)[q] == code[q]
  {
    InterleavedTail(code, nb);
    assert Interleaved(code, nb)[q] == Interleaved(code, nb)[4 * nb..][q - 4 * nb];
  }

  /** The two bits of code octet `q` at symbol `k` are the complemented code bits of data bit `n` = 4`q` + `k`. */
  lemma CodeOctetBits(bits: seq<bool>, code: seq<bv8>, n: nat, q: nat, k: nat)
    requires 4 * |code| == |bits| && code == CodeBytes(Encode(bits)) && 0 <= k < 4 && n == 4 * q + k && n < |bits|
    ensures q < |code|
    ensures var e := EncoderAfter(bits, n + 1);
      (code[q] & Mask(2 * k) != 0) == !Ui1(e) && (code[q] & Mask(2 * k + 1) != 0) == !Ui0(e)
  {
    OctetSymbol(bits, code, n, q, k);
    EncodeAt(bits, n);
  }

  /** Symbol `k` of code octet `q` is symbol `n` of the code. */
  lemma OctetSymbol(bits: seq<bool>, code: seq<bv8>, n: nat, q: nat, k: nat)
    requires 4 * |code| == |bits| && code == CodeBytes(Encode(bits)) && 0 <= k < 4 && n == 4 * q + k && n < |bits|
    ensures q < |code| && n < |Encode(bits)|
    ensures (code[q] & Mask(2 * k) != 0) == (Encode(bits)[n] & 2 != 0) && (code[q] & Mask(2 * k + 1) != 0) == (Encode(bits)[n] & 1 != 0)
  {
    OctetBelow4(bits, q);
    CodeBytesAt(Encode(bits), q);
    SymbolInOctet(Encode(bits), code[q], n, q, k);
  }

  /** The four symbols of a code octet are two bits each. */
  lemma OctetBelow4(bits: seq<bool>, q: nat)
    requires 4 * q + 4 <= |bits|
    ensures 4 * q + 4 <= |Encode(bits)|
    ensures Encode(bits)[4 * q] < 4 && Encode(bits)[4 * q + 1] < 4 && Encode(bits)[4 * q + 2] < 4 && Encode(bits)[4 * q + 3] < 4
  {
    SymbolBelow4(bits, 4 * q);
    SymbolBelow4(bits, 4 * q + 1);
    SymbolBelow4(bits, 4 * q + 2);
    SymbolBelow4(bits, 4 * q + 3);
  }

  /** The two bits of symbol `k` of an octet packing the symbols 4`q` to 4`q` + 3 are those of symbol `n` = 4`q` + `k`. */
  lemma SymbolInOctet(syms: seq<bv8>, x: bv8, n: nat, q: nat, k: nat)
    requires 0 <= k < 4 && n == 4 * q + k && 4 * q + 4 <= |syms|
    requires syms[4 * q] < 4 && syms[4 * q + 1] < 4 && syms[4 * q + 2] < 4 && syms[4 * q + 3] < 4
    requires x == PackByte(syms[4 * q], syms[4 * q + 1], syms[4 * q + 2], syms[4 * q + 3])
    ensures (x & Mask(2 * k) != 0) == (syms[n] & 2 != 0) && (x & Mask(2 * k + 1) != 0) == (syms[n] & 1 != 0)
  {
    PackedSymbolBits(syms, 4 * q, k);
  }

  /** Every symbol of the code is two bits. */
  lemma SymbolBelow4(bits: seq<bool>, t: nat)
    requires t < |bits|
    ensures Encode(bits)[t] < 4
  {
    EncodeAt(bits, t);
  }

  /**
   * One symbol written at octet `start` + `q`, symbol `k`: the buffer goes
   * from `k` symbols of the octet written to `k` + 1 (or to the next octet).
   */
  lemma CoderStep(c: Coder, bit: bool, base: seq<bv8>, start: int, ilv: seq<bv8>, code: seq<bv8>, q: nat, k: nat)
    requires |base| == RF_BUF_SIZE && 0 <= start && start + q < RF_BUF_SIZE && 0 <= k < 4
    requires |ilv| == |code| && q < |code| && ilv[q] == code[q]
    requires c.len == start + q && c.bp == Mask(2 * k) && c.buf == Written(base, start, ilv, code, q, k)
    requires var e := Shifted(c.enc, bit);
      (code[q] & Mask(2 * k) != 0) == !Ui1(e) && (code[q] & Mask(2 * k + 1) != 0) == !Ui0(e)
    ensures Writable(c)
    ensures var (r, ok) := EncodeBitF(c, bit);
      r.enc == Shifted(c.enc, bit) && ok == (r.len < RF_BUF_SIZE) &&
      (if k == 3 then r.len == c.len + 1 && r.bp == 0x80 && r.buf == Written(base, start, ilv, code, q + 1, 0)
       else r.len == c.len && r.bp == Mask(2 * (k + 1)) && r.buf == Written(base, start, ilv, code, q, k + 1))
  {
    LeadMask(2 * k);
    EncodeBitWrites(c, bit, k);
    WrittenStep(base, start, ilv, code, q, k);
    MergeStep(code[q], base[start + q], k);
  }

  /** The registers after one bit more. */
  lemma EncoderAfterNext(bits: seq<bool>, n: nat)
    requires n < |bits|
    ensures EncoderAfter(bits, n + 1) == Shifted(EncoderAfter(bits, n), bits[n])
  {
  }

  /** One `encode_bit` call inside an octet, given the two bits of the code octet it has to write. */
  lemma EncodeStepInside(c: Coder, base: seq<bv8>, start: int, bits: seq<bool>, code: seq<bv8>, n: nat, q: nat, k: nat, nb: nat)
    requires Encoded(c, base, start, bits, code, n, q, k, nb) && k < 3
    requires n < |bits| && q < 4 * nb + 4 && c.len < RF_BUF_SIZE
    requires var e := EncoderAfter(bits, n + 1);
      q < |code| && (code[q] & Mask(2 * k) != 0) == !Ui1(e) && (code[q] & Mask(2 * k + 1) != 0) == !Ui0(e)
    ensures Writable(c)
    ensures var (r, ok) := EncodeBitF(c, bits[n]);
      Encoded(r, base, start, bits, code, n + 1, q, k + 1, nb) && ok
  {
    InterleavedAfter(code, nb, q);
    CoderStep(c, bits[n], base, start, Interleaved(code, nb), code, q, k);
    EncoderAfterNext(bits, n);
  }

  /** The `encode_bit` call that closes an octet, given the two bits of the code octet it has to write. */
  lemma EncodeStepCloses(c: Coder, base: seq<bv8>, start: int, bits: seq<bool>, code: seq<bv8>, n: nat, q: nat, nb: nat)
    requires Encoded(c, base, start, bits, code, n, q, 3, nb)
    requires n < |bits| && q < 4 * nb + 4 && c.len < RF_BUF_SIZE
    requires var e := EncoderAfter(bits, n + 1);
      q < |code| && (code[q] & Mask(2 * 3) != 0) == !Ui1(e) && (code[q] & Mask(2 * 3 + 1) != 0) == !Ui0(e)
    ensures Writable(c)
    ensures var (r, ok) := EncodeBitF(c, bits[n]);
      Encoded(r, base, start, bits, code, n + 1, q + 1, 0, nb) &&
      ok == (start + q + 1 < RF_BUF_SIZE)
  {
    InterleavedAfter(code, nb, q);
    CoderStep(c, bits[n], base, start, Interleaved(code, nb), code, q, 3);
    EncoderAfterNext(bits, n);
  }

  /** The code octet and the symbol in it after one more data bit. */
  function QAfter(q: nat, k: nat): nat { if k == 3 then q + 1 else q }

  function KAfter(k: nat): nat { if k == 3 then 0 else k + 1 }

  /**
   * One `encode_bit` call keeps the state described, one symbol further on;
   * it fails exactly when it closes the last octet of `rf_buf`, and then the
   * blocks interleaved are those that start before the last octet.
   */
  lemma EncodeStep(c: Coder, base: seq<bv8>, start: int, bits: seq<bool>, code: seq<bv8>, n: nat, q: nat, k: nat, nb: nat)
    requires Coding(c, base, start, bits, code, n, q, k, nb) && code == CodeBytes(Encode(bits))
    requires n < |bits| && q < 4 * nb + 4 && c.len < RF_BUF_SIZE
    ensures Writable(c)
    ensures var r := EncodeBitF(c, bits[n]).0;
      Coding(r, base, start, bits, code, n + 1, QAfter(q, k), KAfter(k), nb) &&
      EncodeBitF(c, bits[n]).1 == (r.len < RF_BUF_SIZE) &&
      (!EncodeBitF(c, bits[n]).1 ==> k == 3 && start + q + 1 == RF_BUF_SIZE && 4 * nb < RF_BUF_SIZE - start <= 4 * nb + 4)
  {
    if k < 3 {
      EncodeStepWithin(c, base, start, bits, code, n, q, k, nb, n + 1, QAfter(q, k), KAfter(k));
    } else {
      EncodeStepLast(c, base, start, bits, code, n, q, k, nb, n + 1, QAfter(q, k), KAfter(k));
    }
  }

  /** EncodeStep for a symbol that is not the last of its octet. */
  lemma EncodeStepWithin(c: Coder, base: seq<bv8>, start: int, bits: seq<bool>, code: seq<bv8>, n: nat, q: nat, k: nat, nb: nat,
                         n1: nat, q1: nat, k1: nat)
    requires Coding(c, base, start, bits, code, n, q, k, nb) && code == CodeBytes(Encode(bits))
    requires n < |bits| && q < 4 * nb + 4 && c.len < RF_BUF_SIZE && k < 3 && n1 == n + 1 && q1 == q && k1 == k + 1
    ensures Writable(c)
    ensures var r := EncodeBitF(c, bits[n]).0;
      Coding(r, base, start, bits, code, n1, q1, k1, nb) &&
      EncodeBitF(c, bits[n]).1 == (r.len < RF_BUF_SIZE) &&
      (!EncodeBitF(c, bits[n]).1 ==> k == 3 && start + q + 1 == RF_BUF_SIZE && 4 * nb < RF_BUF_SIZE - start <= 4 * nb + 4)
  {
    assert Exposed(c, 0);
    CodeOctetBits(bits, code, n, q, k);
    EncodeStepInside(c, base, start, bits, code, n, q, k, nb);
    CodingClose(EncodeBitF(c, bits[n]).0, base, start, bits, code, n1, q1, k1, nb);
  }

  /** EncodeStep for the last symbol of an octet. */
  lemma EncodeStepLast(c: Coder, base: seq<bv8>, start: int, bits: seq<bool>, code: seq<bv8>, n: nat, q: nat, k: nat, nb: nat,
                       n1: nat, q1: nat, k1: nat)
    requires Coding(c, base, start, bits, code, n, q, k, nb) && code == CodeBytes(Encode(bits))
    requires n < |bits| && q < 4 * nb + 4 && c.len < RF_BUF_SIZE && k == 3 && n1 == n + 1 && q1 == q + 1 && k1 == 0
    ensures Writable(c)
    ensures var r := EncodeBitF(c, bits[n]).0;
      Coding(r, base, start, bits, code, n1, q1, k1, nb) &&
      EncodeBitF(c, bits[n]).1 == (r.len < RF_BUF_SIZE) &&
      (!EncodeBitF(c, bits[n]).1 ==> k == 3 && start + q + 1 == RF_BUF_SIZE && 4 * nb < RF_BUF_SIZE - start <= 4 * nb + 4)
  {
    assert Exposed(c, 0);
    CodeOctetBits(bits, code, n, q, 3);
    EncodeStepCloses(c, base, start, bits, code, n, q, nb);
    CodingClose(EncodeBitF(c, bits[n]).0, base, start, bits, code, n1, q1, k1, nb);
  }

  /** `interleave(&rf_buf[at])`: the four octets from `at` replaced by their interleaved block. */
  function InterleaveAt(buf: seq<bv8>, at: int): (r: seq<bv8>)
    requires 0 <= at && at + 4 <= |buf|
    ensures |r| == |buf|
  {
    buf[..at] + InterleaveBlock(buf[at..at + 4]) + buf[at + 4..]
  }

  /** Interleaving the block that ends a written prefix gives the prefix with one block more interleaved. */
  lemma InterleaveWritten(base: seq<bv8>, start: int, code: seq<bv8>, nb: nat)
    requires |base| == RF_BUF_SIZE && 0 <= start && start + 4 * nb + 4 <= RF_BUF_SIZE && 4 * nb + 4 <= |code|
    ensures InterleaveAt(Written(base, start, Interleaved(code, nb), code, 4 * nb + 4, 0), start + 4 * nb)
      == Written(base, start, Interleaved(code, nb + 1), code, 4 * nb + 4, 0)
  {
    var q := 4 * nb + 4;
    var ilv := Interleaved(code, nb);
    var a := base[..start] + ilv[..4 * nb];
    var blk := code[4 * nb..q];
    var post := base[start + q..];
    WrittenBlock(base, start, code, nb, a, blk, post);
    InterleaveAtJoin(a, blk, post);
    WrittenNextBlock(base, start, code, nb, a, blk, post);
  }

  /** With one block more interleaved, the octets written are the prefix, that block interleaved, and the rest of `base`. */
  lemma WrittenNextBlock(base: seq<bv8>, start: int, code: seq<bv8>, nb: nat, a: seq<bv8>, blk: seq<bv8>, post: seq<bv8>)
    requires |base| == RF_BUF_SIZE && 0 <= start && start + 4 * nb + 4 <= RF_BUF_SIZE && 4 * nb + 4 <= |code|
    requires a == base[..start] + Interleaved(code, nb)[..4 * nb] && blk == code[4 * nb..4 * nb + 4] && post == base[start + 4 * nb + 4..]
    ensures Written(base, start, Interleaved(code, nb + 1), code, 4 * nb + 4, 0) == a + InterleaveBlock(blk) + post
  {
    InterleavedNext(code, nb);
    assert base[..start] + Interleaved(code, nb + 1)[..4 * nb + 4] == a + InterleaveBlock(blk);
  }

  /** At a block boundary, the octets written are the blocks interleaved so far, the block just closed as coded, and the rest of `base`. */
  lemma WrittenBlock(base: seq<bv8>, start: int, code: seq<bv8>, nb: nat, a: seq<bv8>, blk: seq<bv8>, post: seq<bv8>)
    requires |base| == RF_BUF_SIZE && 0 <= start && start + 4 * nb + 4 <= RF_BUF_SIZE && 4 * nb + 4 <= |code|
    requires a == base[..start] + Interleaved(code, nb)[..4 * nb] && blk == code[4 * nb..4 * nb + 4] && post == base[start + 4 * nb + 4..]
    ensures Written(base, start, Interleaved(code, nb), code, 4 * nb + 4, 0) == a + blk + post
  {
    var q := 4 * nb + 4;
    var ilv := Interleaved(code, nb);
    InterleavedTail(code, nb);
    assert ilv[4 * nb..q] == blk by {
      assert ilv[4 * nb..q] == ilv[4 * nb..][..4];
    }
    assert ilv[..q] == ilv[..4 * nb] + ilv[4 * nb..q];
  }

  /** `interleave` at the end of a prefix replaces the four octets after it by their block. */
  lemma InterleaveAtJoin(a: seq<bv8>, blk: seq<bv8>, post: seq<bv8>)
    requires |blk| == 4
    ensures InterleaveAt(a + blk + post, |a|) == a + InterleaveBlock(blk) + post
  {
    var s := a + blk + post;
    assert s[..|a|] == a && s[|a|..|a| + 4] == blk && s[|a| + 4..] == post;
  }

  /** One block more interleaved: the prefix up to that block, then the block interleaved. */
  lemma InterleavedNext(code: seq<bv8>, nb: nat)
    requires 4 * nb + 4 <= |code|
    ensures Interleaved(code, nb + 1)[..4 * nb + 4] == Interleaved(code, nb)[..4 * nb] + InterleaveBlock(code[4 * nb..4 * nb + 4])
  {
  }

  /**
   * When a block of four code octets is complete, interleaving the last four
   * octets written interleaves exactly that block: one block more is done.
   */
  lemma BlockDone(c: Coder, base: seq<bv8>, start: int, bits: seq<bool>, code: seq<bv8>, n: nat, q: nat, k: nat, nb: nat)
    requires Coding(c, base, start, bits, code, n, q, k, nb) && q == 4 * nb + 4 && k == 0
    ensures 4 <= c.len <= |c.buf|
    ensures Coding(c.(buf := InterleaveAt(c.buf, c.len - 4)), base, start, bits, code, n, q, k, nb + 1)
  {
    assert Exposed(c, 0);
    InterleaveWritten(base, start, code, nb);
  }

  /**
   * `generate_packet`'s step for one frame bit: `encode_bit`, then, once 32
   * code bits have gone out since the last interleave, the interleave of the
   * four octets just closed.
   */
  function DataBitCoder(c: Coder, bit: bool, count: int): Coder
    requires Writable(c)
    requires EncodeBitF(c, bit).1 && count + 2 == 32 ==> 4 <= EncodeBitF(c, bit).0.len
  {
    var r := EncodeBitF(c, bit);
    if r.1 && count + 2 == 32 then r.0.(buf := InterleaveAt(r.0.buf, r.0.len - 4)) else r.0
  }

  /** The code-bit count after that step: two more, back to zero at 32, unchanged on failure. */
  function DataBitCount(ok: bool, count: int): int
  {
    if !ok then count else if count + 2 == 32 then 0 else count + 2
  }

  /** The blocks interleaved after that step. */
  function BlocksAfter(nb: nat, count: int): nat
  {
    if count + 2 == 32 then nb + 1 else nb
  }

  /**
   * A frame bit keeps the state described one bit further on, the count of
   * code bits since the last interleave being twice the bits since the last
   * block; when `encode_bit` fails, what is written is what FecAir says.
   */
  lemma DataStep(c: Coder, base: seq<bv8>, start: int, data: seq<bv8>, bits: seq<bool>, code: seq<bv8>,
                 i: int, j: int, bit: bool, n: nat, q: nat, k: nat, nb: nat, count: int)
    requires bits == FecBits(data) && code == CodeBytes(Encode(bits)) && Coding(c, base, start, bits, code, n, q, k, nb)
    requires 0 <= i < |data| && 0 <= j < 8 && n == 8 * i + j && bit == (data[i] & Mask(j) != 0)
    requires 0 <= count < 32 && count == 2 * (n - 16 * nb) && c.len < RF_BUF_SIZE && start < RF_BUF_SIZE
    ensures Writable(c) && (EncodeBitF(c, bit).1 && count + 2 == 32 ==> 4 <= EncodeBitF(c, bit).0.len)
    ensures EncodeBitF(c, bit).1 ==>
      Coding(DataBitCoder(c, bit, count), base, start, bits, code, n + 1, QAfter(q, k), KAfter(k), BlocksAfter(nb, count)) &&
      DataBitCoder(c, bit, count).len < RF_BUF_SIZE
    ensures EncodeBitF(c, bit).1 ==> 0 <= DataBitCount(true, count) < 32 && DataBitCount(true, count) == 2 * (n + 1 - 16 * BlocksAfter(nb, count))
    ensures !EncodeBitF(c, bit).1 ==> FecHeld(DataBitCoder(c, bit, count), base, start, data)
  {
    DataBitIs(data, bits, i, j, n, bit);
    EncodedShape(c, base, start, bits, code, n, q, k, nb);
    EncodeStep(c, base, start, bits, code, n, q, k, nb);
    if !EncodeBitF(c, bit).1 {
      DataAborted(c, base, start, data, bits, code, bit, n, q, k, nb, count);
    } else {
      DataTaken(c, base, start, bits, code, bit, n, q, k, nb, count);
    }
  }

  /** A frame bit that `encode_bit` refuses: what is written is what FecAir says. */
  lemma DataAborted(c: Coder, base: seq<bv8>, start: int, data: seq<bv8>, bits: seq<bool>, code: seq<bv8>,
                    bit: bool, n: nat, q: nat, k: nat, nb: nat, count: int)
    requires bits == FecBits(data) && code == CodeBytes(Encode(bits)) && Writable(c) && !EncodeBitF(c, bit).1
    requires Coding(EncodeBitF(c, bit).0, base, start, bits, code, n + 1, QAfter(q, k), KAfter(k), nb)
    requires k == 3 && start + q + 1 == RF_BUF_SIZE && 4 * nb < RF_BUF_SIZE - start && start < RF_BUF_SIZE
    ensures FecHeld(DataBitCoder(c, bit, count), base, start, data)
  {
    EncodeAborted(c, base, start, data, bits, code, bit, n, q, k, nb);
    assert DataBitCoder(c, bit, count) == EncodeBitF(c, bit).0;
  }

  /** A frame bit that `encode_bit` takes: the state one bit further on, and the count kept. */
  lemma DataTaken(c: Coder, base: seq<bv8>, start: int, bits: seq<bool>, code: seq<bv8>,
                  bit: bool, n: nat, q: nat, k: nat, nb: nat, count: int)
    requires Writable(c) && EncodeBitF(c, bit).1 && EncodeBitF(c, bit).0.len < RF_BUF_SIZE
    requires Coding(EncodeBitF(c, bit).0, base, start, bits, code, n + 1, QAfter(q, k), KAfter(k), nb)
    requires n == 4 * q + k && k < 4 && 4 * nb <= q <= 4 * nb + 4 && 0 <= count < 32 && count == 2 * (n - 16 * nb)
    ensures count + 2 == 32 ==> 4 <= EncodeBitF(c, bit).0.len
    ensures Coding(DataBitCoder(c, bit, count), base, start, bits, code, n + 1, QAfter(q, k), KAfter(k), BlocksAfter(nb, count))
    ensures DataBitCoder(c, bit, count).len < RF_BUF_SIZE
    ensures 0 <= DataBitCount(true, count) < 32 && DataBitCount(true, count) == 2 * (n + 1 - 16 * BlocksAfter(nb, count))
  {
    if count + 2 == 32 {
      BlockArith(n, q, k, nb, count);
    }
    CodedOn(c, base, start, bits, code, bit, n, q, k, nb, count);
    CountStep(n, nb, count);
  }

  /** A frame bit that `encode_bit` takes: the state described, with the block interleaved when the count reaches 32. */
  lemma CodedOn(c: Coder, base: seq<bv8>, start: int, bits: seq<bool>, code: seq<bv8>, bit: bool, n: nat, q: nat, k: nat, nb: nat, count: int)
    requires Writable(c) && EncodeBitF(c, bit).1 && EncodeBitF(c, bit).0.len < RF_BUF_SIZE
    requires Coding(EncodeBitF(c, bit).0, base, start, bits, code, n + 1, QAfter(q, k), KAfter(k), nb)
    requires count + 2 == 32 ==> QAfter(q, k) == 4 * nb + 4 && KAfter(k) == 0
    ensures count + 2 == 32 ==> 4 <= EncodeBitF(c, bit).0.len
    ensures Coding(DataBitCoder(c, bit, count), base, start, bits, code, n + 1, QAfter(q, k), KAfter(k), BlocksAfter(nb, count))
    ensures DataBitCoder(c, bit, count).len < RF_BUF_SIZE
  {
    if count + 2 == 32 {
      BlockClosed(c, base, start, bits, code, bit, n, q, k, nb, count);
    } else {
      assert DataBitCoder(c, bit, count) == EncodeBitF(c, bit).0;
    }
  }

  /** The frame bit that brings the count to 32: the block just closed is interleaved. */
  lemma BlockClosed(c: Coder, base: seq<bv8>, start: int, bits: seq<bool>, code: seq<bv8>, bit: bool, n: nat, q: nat, k: nat, nb: nat, count: int)
    requires Writable(c) && EncodeBitF(c, bit).1 && EncodeBitF(c, bit).0.len < RF_BUF_SIZE
    requires Coding(EncodeBitF(c, bit).0, base, start, bits, code, n + 1, QAfter(q, k), KAfter(k), nb)
    requires count + 2 == 32 && QAfter(q, k) == 4 * nb + 4 && KAfter(k) == 0
    ensures 4 <= EncodeBitF(c, bit).0.len
    ensures Coding(DataBitCoder(c, bit, count), base, start, bits, code, n + 1, QAfter(q, k), KAfter(k), nb + 1)
    ensures DataBitCoder(c, bit, count).len < RF_BUF_SIZE
  {
    var c1 := EncodeBitF(c, bit).0;
    BlockDone(c1, base, start, bits, code, n + 1, QAfter(q, k), KAfter(k), nb);
    assert DataBitCoder(c, bit, count) == c1.(buf := InterleaveAt(c1.buf, c1.len - 4));
  }

  /** The count after a frame bit that `encode_bit` takes is still twice the bits since the last block. */
  lemma CountStep(n: nat, nb: nat, count: int)
    requires 0 <= count < 32 && count == 2 * (n - 16 * nb)
    ensures 0 <= DataBitCount(true, count) < 32 && DataBitCount(true, count) == 2 * (n + 1 - 16 * BlocksAfter(nb, count))
  {
  }

  /** Bit `j` of frame octet `i` is bit 8`i` + `j` of what the encoder is fed. */
  lemma DataBitIs(data: seq<bv8>, bits: seq<bool>, i: int, j: int, n: int, bit: bool)
    requires bits == FecBits(data) && 0 <= i < |data| && 0 <= j < 8 && n == 8 * i + j && bit == (data[i] & Mask(j) != 0)
    ensures 0 <= n < |bits| && bits[n] == bit
  {
    OctetBitsAt(data, i, j);
    assert bits[n] == bits[..8 * |data|][n];
  }

  /** The counters of the state described. */
  lemma EncodedShape(c: Coder, base: seq<bv8>, start: int, bits: seq<bool>, code: seq<bv8>, n: nat, q: nat, k: nat, nb: nat)
    requires Coding(c, base, start, bits, code, n, q, k, nb)
    ensures n == 4 * q + k && k < 4 && 4 * nb <= q <= 4 * nb + 4 && n <= |bits|
    ensures |base| == RF_BUF_SIZE && 0 <= start
  {
    assert Exposed(c, 0);
  }

  /** After the frame octets, the blocks interleaved are the whole pairs of octets. */
  lemma HalfBlocks(total: int, nb: int, count: int)
    requires 0 <= count < 32 && count == 2 * (8 * total - 16 * nb)
    ensures nb == total / 2
  {
  }

  /** The bit that brings the count to 32 closes the fourth octet of the block. */
  lemma BlockArith(n: nat, q: nat, k: nat, nb: nat, count: int)
    requires n == 4 * q + k && k < 4 && 4 * nb <= q <= 4 * nb + 4 && count == 2 * (n - 16 * nb) && count + 2 == 32
    ensures QAfter(q, k) == 4 * nb + 4 && KAfter(k) == 0
  {
  }

  /** A tail or pad bit keeps the state described one bit further on, or ends with what FecAir says. */
  lemma TailStep(c: Coder, base: seq<bv8>, start: int, data: seq<bv8>, bits: seq<bool>, code: seq<bv8>,
                 bit: bool, t: int, n: nat, q: nat, k: nat, nb: nat)
    requires bits == FecBits(data) && code == CodeBytes(Encode(bits)) && Coding(c, base, start, bits, code, n, q, k, nb)
    requires 0 <= t && n < |bits| && bits[n] == bit && |bits| == 16 * (nb + 1)
    requires n == 8 * |data| + t && nb == |data| / 2 && c.len < RF_BUF_SIZE && start < RF_BUF_SIZE
    ensures Writable(c)
    ensures EncodeBitF(c, bit).1 ==>
      Coding(NextCoder(c, bit), base, start, bits, code, n + 1, QAfter(q, k), KAfter(k), nb) && NextCoder(c, bit).len < RF_BUF_SIZE
    ensures !EncodeBitF(c, bit).1 ==> FecHeld(NextCoder(c, bit), base, start, data)
  {
    EncodedShape(c, base, start, bits, code, n, q, k, nb);
    EncodeStep(c, base, start, bits, code, n, q, k, nb);
    if !EncodeBitF(c, bit).1 {
      EncodeAborted(c, base, start, data, bits, code, bit, n, q, k, nb);
    }
  }

  /** Tail bit `t` is bit 8|`data`| + `t` of the bits coded. */
  lemma TailBitIs(data: seq<bv8>, bits: seq<bool>, t: int, n: int, bit: bool)
    requires bits == FecBits(data) && 0 <= t < |TAIL + Pad(|data|)| && n == 8 * |data| + t && bit == (TAIL + Pad(|data|))[t]
    ensures 0 <= n < |bits| && bits[n] == bit && |bits| == 16 * (|data| / 2 + 1)
  {
    FecBitsBlocks(data);
  }

  /** An `encode_bit` call that fails leaves the coded part FecAir describes. */
  lemma EncodeAborted(c: Coder, base: seq<bv8>, start: int, data: seq<bv8>, bits: seq<bool>, code: seq<bv8>,
                      bit: bool, n: nat, q: nat, k: nat, nb: nat)
    requires bits == FecBits(data) && code == CodeBytes(Encode(bits)) && Writable(c) && !EncodeBitF(c, bit).1
    requires Coding(EncodeBitF(c, bit).0, base, start, bits, code, n + 1, QAfter(q, k), KAfter(k), nb)
    requires k == 3 && start + q + 1 == RF_BUF_SIZE && 4 * nb < RF_BUF_SIZE - start && start < RF_BUF_SIZE
    ensures FecHeld(EncodeBitF(c, bit).0, base, start, data)
  {
    FecAborted(EncodeBitF(c, bit).0, base, start, data, bits, code, n + 1, QAfter(q, k), KAfter(k), nb);
  }

  /** At an octet boundary, the octets written are the interleaved code so far, and the rest of `rf_buf` is as it was. */
  lemma WrittenPrefix(c: Coder, base: seq<bv8>, start: int, bits: seq<bool>, code: seq<bv8>, n: nat, q: nat, k: nat, nb: nat)
    requires Coding(c, base, start, bits, code, n, q, k, nb) && k == 0
    ensures 0 <= start && c.len == start + q <= |c.buf| == |base| && 4 * nb <= q <= |code|
    ensures c.buf[..c.len] == base[..start] + Interleaved(code, nb)[..q]
    ensures c.buf[c.len..] == base[c.len..]
    ensures c.bp == 0x80 && 4 * q <= |bits| && c.enc == EncoderAfter(bits, 4 * q)
  {
    assert Exposed(c, 0);
  }

  /** When the code does not fit, the air is the code cut at the end of the buffer, its last block not interleaved. */
  lemma CodedAirCut(bits: seq<bool>, blocks: nat, room: int, nb: nat)
    requires |bits| == 16 * blocks && 4 * nb < room <= 4 * nb + 4 && room <= 4 * blocks
    ensures CodedAir(bits, blocks, room) == Interleaved(CodeBytes(Encode(bits)), nb)[..room]
    ensures Consumed(bits, blocks, room) == 4 * room
  {
    assert (room - 1) / 4 == nb;
  }

  /** What `generate_packet` leaves in the coder after coding `bits`: the coded part of the air and the registers. */
  ghost predicate HoldsAir(c: Coder, base: seq<bv8>, start: int, bits: seq<bool>, blocks: nat)
    requires |base| == RF_BUF_SIZE && 0 <= start < RF_BUF_SIZE && |bits| == 16 * blocks
  {
    var room := RF_BUF_SIZE - start;
    var air := CodedAir(bits, blocks, room);
    c.len == start + |air| && c.buf == base[..start] + air + base[start + |air|..] && c.bp == 0x80 &&
    c.enc == EncoderAfter(bits, Consumed(bits, blocks, room))
  }

  /** The buffer is the old one with `air` laid over it from `start`. */
  lemma AirLaid(buf: seq<bv8>, base: seq<bv8>, start: int, len: int, air: seq<bv8>)
    requires |buf| == |base| && 0 <= start <= len <= |buf| && len == start + |air|
    requires buf[..len] == base[..start] + air && buf[len..] == base[len..]
    ensures buf == base[..start] + air + base[start + |air|..]
  {
    assert buf == buf[..len] + buf[len..];
  }

  /** An `encode_bit` failure leaves the buffer full, holding the air with its last block not interleaved. */
  lemma AbortedAir(c: Coder, base: seq<bv8>, start: int, bits: seq<bool>, blocks: nat, code: seq<bv8>, n: nat, q: nat, k: nat, nb: nat)
    requires |base| == RF_BUF_SIZE && 0 <= start && |bits| == 16 * blocks && code == CodeBytes(Encode(bits))
    requires Coding(c, base, start, bits, code, n, q, k, nb) && k == 0
    requires start + q == RF_BUF_SIZE && 4 * nb < q && start < RF_BUF_SIZE
    ensures HoldsAir(c, base, start, bits, blocks)
  {
    EncodedShape(c, base, start, bits, code, n, q, k, nb);
    WrittenPrefix(c, base, start, bits, code, n, q, k, nb);
    assert 4 * nb < q <= 4 * nb + 4 && q <= 4 * blocks;
    AbortedAirOf(c, base, start, bits, blocks, q, nb);
  }

  /** The same, from what the buffer and the registers hold. */
  lemma AbortedAirOf(c: Coder, base: seq<bv8>, start: int, bits: seq<bool>, blocks: nat, q: nat, nb: nat)
    requires |bits| == 16 * blocks && |base| == RF_BUF_SIZE && 0 <= start < RF_BUF_SIZE
    requires start + q == RF_BUF_SIZE && 4 * nb < q <= 4 * nb + 4 && q <= 4 * blocks
    requires var code := CodeBytes(Encode(bits));
      q <= |code| && |c.buf| == RF_BUF_SIZE && c.len == start + q && c.bp == 0x80 && c.enc == EncoderAfter(bits, 4 * q) &&
      c.buf[..c.len] == base[..start] + Interleaved(code, nb)[..q] && c.buf[c.len..] == base[c.len..]
    ensures HoldsAir(c, base, start, bits, blocks)
  {
    CodedAirCut(bits, blocks, q, nb);
    AirLaid(c.buf, base, start, c.len, Interleaved(CodeBytes(Encode(bits)), nb)[..q]);
  }

  /** After the last block is interleaved, the buffer holds the whole air. */
  lemma FinishedAir(c: Coder, base: seq<bv8>, start: int, bits: seq<bool>, blocks: nat, code: seq<bv8>, n: nat, q: nat, k: nat, nb: nat)
    requires |base| == RF_BUF_SIZE && 0 <= start && |bits| == 16 * blocks && code == CodeBytes(Encode(bits))
    requires Coding(c, base, start, bits, code, n, q, k, nb) && n == |bits| && q == 4 * blocks && k == 0 && nb == blocks
    requires c.len < RF_BUF_SIZE && start < RF_BUF_SIZE
    ensures HoldsAir(c, base, start, bits, blocks)
  {
    WrittenPrefix(c, base, start, bits, code, n, q, k, nb);
    FinishedAirOf(c, base, start, bits, blocks);
  }

  /** The same, from what the buffer and the registers hold. */
  lemma FinishedAirOf(c: Coder, base: seq<bv8>, start: int, bits: seq<bool>, blocks: nat)
    requires |bits| == 16 * blocks && |base| == RF_BUF_SIZE && 0 <= start < RF_BUF_SIZE
    requires var ilv := Interleaved(CodeBytes(Encode(bits)), blocks);
      |c.buf| == RF_BUF_SIZE && c.len == start + 4 * blocks < RF_BUF_SIZE && c.bp == 0x80 && c.enc == EncoderAfter(bits, |bits|) &&
      c.buf[..c.len] == base[..start] + ilv[..4 * blocks] && c.buf[c.len..] == base[c.len..]
    ensures HoldsAir(c, base, start, bits, blocks)
  {
    var ilv := Interleaved(CodeBytes(Encode(bits)), blocks);
    assert ilv[..4 * blocks] == ilv;
    AirLaid(c.buf, base, start, c.len, ilv);
  }

  /** What `generate_packet` leaves in the coder after coding the frame `data`, in the terms FecAir uses. */
  ghost predicate HoldsFecAir(c: Coder, base: seq<bv8>, start: int, data: seq<bv8>)
    requires |base| == RF_BUF_SIZE && 0 <= start < RF_BUF_SIZE
  {
    var room := RF_BUF_SIZE - start;
    var air := FecAir(data, room);
    match c
    case Coder(enc, buf, len, bp) =>
      len == start + |air| && buf == base[..start] + air + base[start + |air|..] && bp == 0x80 &&
      enc == EncoderAfter(FecBits(data), FecConsumed(data, room))
  }

  /** The coded frame, tail and pad are the coded part FecAir describes. */
  lemma FecAirHeld(c: Coder, base: seq<bv8>, start: int, data: seq<bv8>)
    requires |base| == RF_BUF_SIZE && 0 <= start < RF_BUF_SIZE && |FecBits(data)| == 16 * (|data| / 2 + 1)
    requires HoldsAir(c, base, start, FecBits(data), |data| / 2 + 1)
    ensures HoldsFecAir(c, base, start, data)
  {
  }

  /** An `encode_bit` failure while coding the frame leaves the coded part FecAir describes. */
  lemma FecAborted(c: Coder, base: seq<bv8>, start: int, data: seq<bv8>, bits: seq<bool>, code: seq<bv8>, n: nat, q: nat, k: nat, nb: nat)
    requires bits == FecBits(data) && code == CodeBytes(Encode(bits)) && Coding(c, base, start, bits, code, n, q, k, nb)
    requires k == 0 && start + q == RF_BUF_SIZE && 4 * nb < q && start < RF_BUF_SIZE
    ensures FecHeld(c, base, start, data)
  {
    FecBitsBlocks(data);
    EncodedShape(c, base, start, bits, code, n, q, k, nb);
    AbortedAir(c, base, start, bits, |data| / 2 + 1, code, n, q, k, nb);
    FecAirHeld(c, base, start, data);
    FecHeldClose(c, base, start, data);
  }

  /** Coding the frame to its end, last block interleaved, leaves the coded part FecAir describes. */
  lemma FecFinished(c: Coder, base: seq<bv8>, start: int, data: seq<bv8>, bits: seq<bool>, code: seq<bv8>, n: nat, q: nat, k: nat, nb: nat)
    requires bits == FecBits(data) && code == CodeBytes(Encode(bits)) && Coding(c, base, start, bits, code, n, q, k, nb)
    requires n == |bits| && nb == |data| / 2 + 1 && q == 4 * nb && k == 0
    requires c.len < RF_BUF_SIZE && start < RF_BUF_SIZE
    ensures FecHeld(c, base, start, data)
  {
    FecBitsBlocks(data);
    EncodedShape(c, base, start, bits, code, n, q, k, nb);
    FinishedAir(c, base, start, bits, |data| / 2 + 1, code, n, q, k, nb);
    FecAirHeld(c, base, start, data);
    FecHeldClose(c, base, start, data);
  }

  /** After the pad the last block is complete, and its interleave closes the coding. */
  lemma FecLastBlock(c: Coder, base: seq<bv8>, start: int, data: seq<bv8>, bits: seq<bool>, code: seq<bv8>, n: nat, q: nat, k: nat, nb: nat, nb1: nat)
    requires bits == FecBits(data) && code == CodeBytes(Encode(bits)) && n == |bits| && nb == |data| / 2 && nb1 == nb + 1
    requires Coding(c, base, start, bits, code, n, q, k, nb) && c.len < RF_BUF_SIZE && start < RF_BUF_SIZE
    ensures 4 <= c.len <= |c.buf| && q == 4 * (nb + 1) && k == 0
    ensures Coding(c.(buf := InterleaveAt(c.buf, c.len - 4)), base, start, bits, code, n, q, k, nb1)
  {
    FecBitsBlocks(data);
    EncodedShape(c, base, start, bits, code, n, q, k, nb);
    LastBlockArith(n, q, k, nb);
    BlockDone(c, base, start, bits, code, n, q, k, nb);
  }

  /** After the pad, the symbols written close the last block. */
  lemma LastBlockArith(n: nat, q: nat, k: nat, nb: nat)
    requires n == 4 * q + k && k < 4 && q <= 4 * nb + 4 && n == 16 * (nb + 1)
    ensures q == 4 * nb + 4 && k == 0
  {
  }
}
