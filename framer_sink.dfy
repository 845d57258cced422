/**
 * The uncoded MR-FSK deframer of lib/framer_sink_mrfsk_impl.cc.
 *
 * It reads one item per received bit (see Frame.DataBit / Frame.SyncFlag):
 * in SYNC_SEARCH it waits for the flagged item, in HAVE_SYNC it shifts in the
 * 16 PHR bits, in HAVE_HEADER it assembles `frame_length` octets, de-whitens
 * them, runs the CRC over them, and finally queues a record and searches again.
 *
 * `Sink` is the value of all the fields the C++ object updates, `Step` the
 * effect of one item on them; the class `FramerSink` updates its fields in
 * place with the nested loops of `work` and is proved to do what `Run` says.
 */
module FramerSinkMrfsk {
  import opened Primitives
  import opened Phr
  import opened Frame
  import opened Folds

  /** PHR size in bits. */
  const HEADERBITLEN: int := 16

  datatype SinkState = SyncSearch | HaveSync | HaveHeader

  /** The deframer's fields; `packet` is the whole `d_packet` buffer, stale octets included. */
  datatype Sink = Sink(
    state: SinkState,
    phr: bv16,
    headerBitCnt: int,
    byteIndex: int,
    packetByte: bv8,
    packetLenCnt: int,
    packet: seq<bv8>,
    crc32: bv32,
    crc16: bv16,
    lfsr: bv16,
    queue: seq<Message>)

  /**
   * What holds between items: the buffer has its fixed size, the header count
   * is strictly inside the PHR while in HAVE_SYNC, and while in HAVE_HEADER the
   * octet count is below the announced length (or 0, before the first octet).
   */
  ghost predicate Inv(s: Sink)
  {
    |s.packet| == aMaxPHYPacketSize &&
    (s.state == HaveSync ==> 1 <= s.headerBitCnt < HEADERBITLEN) &&
    (s.state == HaveHeader ==>
      0 <= s.byteIndex <= 7 && 0 <= s.packetLenCnt &&
      (s.packetLenCnt == 0 || s.packetLenCnt < FrameLength(s.phr)))
  }

  /** The effect of one input item. */
  function Step(s: Sink, item: bv8): (r: Sink)
    requires Inv(s)
    ensures Inv(r)
  {
    match s.state
    case SyncSearch =>
      if SyncFlag(item) then s.(state := HaveSync, phr := DataBit(item) as bv16, headerBitCnt := 1)
      else s
    case HaveSync => HeaderBit(s, item)
    case HaveHeader => PayloadBit(s, item)
  }

  /** One PHR bit; the sixteenth seeds the CRC (and the whitening register if DW) and starts the PSDU. */
  function HeaderBit(s: Sink, item: bv8): (r: Sink)
    requires Inv(s) && s.state == HaveSync
    ensures Inv(r)
  {
    var phr := Shl16(s.phr, item);
    var cnt := s.headerBitCnt + 1;
    if cnt == HEADERBITLEN then
      s.(phr := phr, headerBitCnt := cnt,
         crc16 := if Fcs16(phr) then INITIAL_CRC16 else s.crc16,
         crc32 := if Fcs16(phr) then s.crc32 else INITIAL_CRC32,
         lfsr := if Dw(phr) then PN9_SEED else s.lfsr,
         state := HaveHeader, byteIndex := 0, packetByte := 0, packetLenCnt := 0)
    else
      s.(phr := phr, headerBitCnt := cnt)
  }

  /** One PSDU bit; every eighth completes an octet. */
  function PayloadBit(s: Sink, item: bv8): (r: Sink)
    requires Inv(s) && s.state == HaveHeader
    ensures Inv(r)
  {
    var b := Shl8(s.packetByte, item);
    if s.byteIndex == 7 then OctetDone(s, b)
    else s.(packetByte := b, byteIndex := s.byteIndex + 1)
  }

  /**
   * A completed octet: de-whitened if DW, fed to the CRC (CRC-32 only while
   * the count is below `frame_length` - 4), stored; at `frame_length` octets
   * the frame is delivered.
   */
  function OctetDone(s: Sink, b: bv8): (r: Sink)
    requires Inv(s) && s.state == HaveHeader
    ensures Inv(r)
  {
    var fl := FrameLength(s.phr);
    var t := Store(s, b, fl);
    if t.packetLenCnt >= fl then Deliver(t)
    else if t.packetLenCnt >= aMaxPHYPacketSize then t.(state := SyncSearch)
    else t
  }

  /** The bookkeeping of a completed octet before the length check; the octet register and bit index restart. */
  function Store(s: Sink, b: bv8, fl: int): (t: Sink)
    requires 0 <= s.packetLenCnt < |s.packet|
    ensures t.state == s.state && t.phr == s.phr && t.queue == s.queue && |t.packet| == |s.packet|
    ensures t.packetLenCnt == s.packetLenCnt + 1 && t.byteIndex == 0
  {
    var octet := if Dw(s.phr) then b ^ GetPn9Byte(s.lfsr).0 else b;
    var lfsr := if Dw(s.phr) then GetPn9Byte(s.lfsr).1 else s.lfsr;
    var crc16 := if Fcs16(s.phr) then CrcMsbFirst(s.crc16, octet) else s.crc16;
    var crc32 := if !Fcs16(s.phr) && s.packetLenCnt < fl - 4 then UpdateCrc32(s.crc32, octet) else s.crc32;
    s.(packetByte := octet, lfsr := lfsr, crc16 := crc16, crc32 := crc32,
       packet := s.packet[s.packetLenCnt := octet], packetLenCnt := s.packetLenCnt + 1, byteIndex := 0)
  }

  /** Queue a type-0 record with the PHR, the verdict and the octets, and search again. */
  function Deliver(t: Sink): (r: Sink)
    requires |t.packet| == aMaxPHYPacketSize && 0 <= t.packetLenCnt <= |t.packet|
    ensures r.state == SyncSearch && |r.queue| == |t.queue| + 1 && r.queue[..|t.queue|] == t.queue
    ensures r.queue[|t.queue|].kind == 0 && r.queue[|t.queue|].phr == t.phr
    ensures r.queue[|t.queue|].bytes == t.packet[..t.packetLenCnt]
    ensures r.packet == t.packet
  {
    if Fcs16(t.phr) then
      t.(state := SyncSearch,
         queue := t.queue + [Message(0, t.phr, t.crc16 == 0, t.packet[..t.packetLenCnt])])
    else
      var v := Crc32Verdict(t.crc32, t.packet, t.packetLenCnt);
      t.(crc32 := v.0, state := SyncSearch,
         queue := t.queue + [Message(0, t.phr, v.1, t.packet[..t.packetLenCnt])])
  }

  /** Step made total, so that runs are folds: a state outside Inv (none is reachable) is left as it is. */
  ghost function Next(s: Sink, item: bv8): Sink
  {
    if Inv(s) then Step(s, item) else s
  }

  lemma NextKeepsInv()
    ensures forall s, item :: Inv(s) ==> Inv(Next(s, item))
  {
  }

  /** The fields after a sequence of items. */
  ghost function Run(s: Sink, items: seq<bv8>): (r: Sink)
    requires Inv(s)
    ensures Inv(r)
  {
    NextKeepsInv();
    FoldKeeps(Next, Inv, s, items);
    Fold(Next, s, items)
  }

  /** The fields after the items `input[i..j]`: Run by position rather than by slice. */
  ghost function RunFrom(s: Sink, input: seq<bv8>, i: nat, j: nat): (r: Sink)
    requires Inv(s) && i <= j <= |input|
    ensures Inv(r)
  {
    NextKeepsInv();
    FoldFromKeeps(Next, Inv, s, input, i, j);
    FoldFrom(Next, s, input, i, j)
  }

  /** The last item of a run is one more Step. */
  lemma RunSnoc(s: Sink, items: seq<bv8>)
    requires Inv(s) && |items| > 0
    ensures Run(s, items) == Step(Run(s, items[..|items| - 1]), items[|items| - 1])
  {
  }

  lemma RunEmpty(s: Sink)
    requires Inv(s)
    ensures Run(s, []) == s
  {
  }

  lemma RunFromStep(s: Sink, input: seq<bv8>, i: nat, j: nat)
    requires Inv(s) && i < j <= |input|
    ensures RunFrom(s, input, i, j) == Step(RunFrom(s, input, i, j - 1), input[j - 1])
  {
  }

  lemma RunFromEmpty(s: Sink, input: seq<bv8>, i: nat)
    requires Inv(s) && i <= |input|
    ensures RunFrom(s, input, i, i) == s
  {
  }

  lemma RunFromSlice(s: Sink, input: seq<bv8>, i: nat, j: nat)
    requires Inv(s) && i <= j <= |input|
    ensures RunFrom(s, input, i, j) == Run(s, input[i..j])
  {
    FoldFromSlice(Next, s, input, i, j);
  }

  /** Running `input[i..k]` then `input[k..j]` is running `input[i..j]`. */
  lemma RunFromJoin(s: Sink, input: seq<bv8>, i: nat, k: nat, j: nat)
    requires Inv(s) && i <= k <= j <= |input|
    ensures RunFrom(RunFrom(s, input, i, k), input, k, j) == RunFrom(s, input, i, j)
  {
    FoldFromJoin(Next, s, input, i, k, j);
  }

  lemma RunAppend(s: Sink, a: seq<bv8>, b: seq<bv8>)
    requires Inv(s)
    ensures Run(s, a + b) == Run(Run(s, a), b)
  {
    FoldAppend(Next, s, a, b);
  }

  // ---------------------------------------------------------------------
  // Properties of the deframer
  // ---------------------------------------------------------------------

  /** SYNC_SEARCH passes over every item whose flag is clear. */
  lemma {:induction false} SearchSkipsUnflagged(s: Sink, items: seq<bv8>)
    requires Inv(s) && s.state == SyncSearch
    requires forall i :: 0 <= i < |items| ==> !SyncFlag(items[i])
    ensures Run(s, items) == s
    decreases |items|
  {
    if |items| > 0 {
      SearchSkipsUnflagged(s, items[..|items| - 1]);
    }
  }

  /** The flagged item starts the header with its data bit as the first PHR bit. */
  lemma SearchFindsFlag(s: Sink, item: bv8)
    requires Inv(s) && s.state == SyncSearch && SyncFlag(item)
    ensures Step(s, item).state == HaveSync && Step(s, item).headerBitCnt == 1
    ensures Step(s, item).phr == DataBit(item) as bv16
    ensures Step(s, item).queue == s.queue
  {
  }

  /**
   * The overrun branch is never taken: whenever an octet completes without
   * reaching `frame_length`, the count is still below the buffer size.
   */
  lemma OverrunUnreachable(s: Sink)
    requires Inv(s) && s.state == HaveHeader
    ensures s.packetLenCnt + 1 >= FrameLength(s.phr) || s.packetLenCnt + 1 < aMaxPHYPacketSize
  {
  }

  /** `phr.word = (phr.word << 1) | (item & 1)`. */
  function Shl16(v: bv16, item: bv8): bv16 { (v << 1) | DataBit(item) as bv16 }

  /** `d_packet_byte = (d_packet_byte << 1) | (item & 1)`. */
  function Shl8(v: bv8, item: bv8): bv8 { (v << 1) | DataBit(item) }

  /** The PHR register shifted by a run of header items. */
  function ShiftIn16(p: bv16, items: seq<bv8>): bv16
    decreases |items|
  {
    if |items| == 0 then p else Shl16(ShiftIn16(p, items[..|items| - 1]), items[|items| - 1])
  }

  /** The octet register shifted by a run of PSDU items. */
  function ShiftIn8(p: bv8, items: seq<bv8>): bv8
    decreases |items|
  {
    if |items| == 0 then p else Shl8(ShiftIn8(p, items[..|items| - 1]), items[|items| - 1])
  }

  lemma {:induction false} ShiftIn16Append(p: bv16, a: seq<bv8>, b: seq<bv8>)
    ensures ShiftIn16(p, a + b) == ShiftIn16(ShiftIn16(p, a), b)
    decreases |b|
  {
    if |b| == 0 {
      assert a + b == a;
    } else {
      assert (a + b)[..|a + b| - 1] == a + b[..|b| - 1];
      ShiftIn16Append(p, a, b[..|b| - 1]);
    }
  }

  lemma ShiftIn16Snoc(p: bv16, b: seq<bv8>, k: nat)
    requires k < |b|
    ensures ShiftIn16(p, b[..k + 1]) == Shl16(ShiftIn16(p, b[..k]), b[k])
  {
    assert b[..k + 1][..k] == b[..k];
  }

  lemma ShiftIn8Snoc(p: bv8, b: seq<bv8>, k: nat)
    requires k < |b|
    ensures ShiftIn8(p, b[..k + 1]) == Shl8(ShiftIn8(p, b[..k]), b[k])
  {
    assert b[..k + 1][..k] == b[..k];
  }

  /** Eight items of an octet shift that octet into the low half of the PHR register. */
  lemma ShiftIn16Octet(p: bv16, x: bv8)
    ensures ShiftIn16(p, Bits8(x)) == (p << 8) | x as bv16
  {
    var b := Bits8(x);
    assert b[..0] == [];
    ShiftIn16Snoc(p, b, 0);
    ShiftIn16Snoc(p, b, 1);
    ShiftIn16Snoc(p, b, 2);
    ShiftIn16Snoc(p, b, 3);
    ShiftIn16Snoc(p, b, 4);
    ShiftIn16Snoc(p, b, 5);
    ShiftIn16Snoc(p, b, 6);
    ShiftIn16Snoc(p, b, 7);
    assert b[..8] == b;
    ShiftChain16(p, x);
  }

  /** The bit-vector core of ShiftIn16Octet. */
  lemma ShiftChain16(p: bv16, x: bv8)
    ensures Shl16(Shl16(Shl16(Shl16(Shl16(Shl16(Shl16(Shl16(p, (x >> 7) & 1), (x >> 6) & 1), (x >> 5) & 1),
      (x >> 4) & 1), (x >> 3) & 1), (x >> 2) & 1), (x >> 1) & 1), x & 1) == (p << 8) | x as bv16
  {
  }

  /** Eight items of an octet leave exactly that octet in the octet register. */
  lemma ShiftIn8Octet(p: bv8, x: bv8)
    ensures ShiftIn8(p, Bits8(x)) == x
  {
    var b := Bits8(x);
    assert b[..0] == [];
    ShiftIn8Snoc(p, b, 0);
    ShiftIn8Snoc(p, b, 1);
    ShiftIn8Snoc(p, b, 2);
    ShiftIn8Snoc(p, b, 3);
    ShiftIn8Snoc(p, b, 4);
    ShiftIn8Snoc(p, b, 5);
    ShiftIn8Snoc(p, b, 6);
    ShiftIn8Snoc(p, b, 7);
    assert b[..8] == b;
    ShiftChain8(p, x);
  }

  /** The bit-vector core of ShiftIn8Octet. */
  lemma ShiftChain8(p: bv8, x: bv8)
    ensures Shl8(Shl8(Shl8(Shl8(Shl8(Shl8(Shl8(Shl8(p, (x >> 7) & 1), (x >> 6) & 1), (x >> 5) & 1),
      (x >> 4) & 1), (x >> 3) & 1), (x >> 2) & 1), (x >> 1) & 1), x & 1) == x
  {
  }

  /** Header items that do not complete the PHR only shift it and count. */
  lemma {:induction false} HeaderItems(s: Sink, items: seq<bv8>)
    requires Inv(s) && s.state == HaveSync && s.headerBitCnt + |items| < HEADERBITLEN
    ensures Run(s, items) == s.(phr := ShiftIn16(s.phr, items), headerBitCnt := s.headerBitCnt + |items|)
    decreases |items|
  {
    if |items| > 0 {
      HeaderItems(s, items[..|items| - 1]);
    }
  }

  /** PSDU items that do not complete an octet only shift it and count. */
  lemma {:induction false} OctetItemsPartial(s: Sink, items: seq<bv8>)
    requires Inv(s) && s.state == HaveHeader && s.byteIndex + |items| <= 7
    ensures Run(s, items) == s.(packetByte := ShiftIn8(s.packetByte, items), byteIndex := s.byteIndex + |items|)
    decreases |items|
  {
    if |items| > 0 {
      OctetItemsPartial(s, items[..|items| - 1]);
    }
  }

  /** The state right after the PHR of header word `w` has been read. */
  ghost predicate HeaderRead(r: Sink, s: Sink, w: bv16)
  {
    Inv(r) && r.state == HaveHeader && r.phr == w && r.byteIndex == 0 && r.packetLenCnt == 0 &&
    r.queue == s.queue &&
    (Fcs16(w) ==> r.crc16 == INITIAL_CRC16) &&
    (!Fcs16(w) ==> r.crc32 == INITIAL_CRC32) &&
    (Dw(w) ==> r.lfsr == PN9_SEED)
  }

  /** The sixteen bits of a header word, high octet first, shift back into that word. */
  lemma PhrBits(w: bv16)
    ensures ShiftIn16(0, OctetItems(ToOctets(w))) == w
  {
    PhrItems(w);
    PhrShift(HighByte(w), LowByte(w));
    OctetsRoundTrip(w);
  }

  lemma PhrItems(w: bv16)
    ensures OctetItems(ToOctets(w)) == Bits8(HighByte(w)) + Bits8(LowByte(w))
  {
    OctetItemsAppend([HighByte(w)], [LowByte(w)]);
    OctetItemsOne(HighByte(w));
    OctetItemsOne(LowByte(w));
    assert [HighByte(w)] + [LowByte(w)] == ToOctets(w);
  }

  lemma PhrShift(hi: bv8, lo: bv8)
    ensures ShiftIn16(0, Bits8(hi) + Bits8(lo)) == FromOctets(hi, lo)
  {
    ShiftIn16Append(0, Bits8(hi), Bits8(lo));
    ShiftIn16Octet(0, hi);
    var h := ShiftIn16(0, Bits8(hi));
    ShiftIn16Octet(h, lo);
    OctetsJoin(hi, lo, h);
  }

  lemma OctetsJoin(hi: bv8, lo: bv8, h: bv16)
    requires h == (0 << 8) | hi as bv16
    ensures (h << 8) | lo as bv16 == FromOctets(hi, lo)
  {
  }

  /** Only the data bits of the items matter to the PHR register. */
  lemma {:induction false} ShiftIn16DataBits(p: bv16, a: seq<bv8>, b: seq<bv8>)
    requires |a| == |b| && forall i :: 0 <= i < |a| ==> DataBit(a[i]) == DataBit(b[i])
    ensures ShiftIn16(p, a) == ShiftIn16(p, b)
    decreases |a|
  {
    if |a| > 0 {
      ShiftIn16DataBits(p, a[..|a| - 1], b[..|b| - 1]);
    }
  }

  /**
   * From SYNC_SEARCH, a flagged item and fifteen more read a PHR: the
   * register holds the sixteen data bits and the CRC and whitening register are seeded.
   */
  lemma {:induction false} HeaderFromFlag(s: Sink, items: seq<bv8>)
    requires Inv(s) && s.state == SyncSearch && |items| == HEADERBITLEN && SyncFlag(items[0])
    ensures HeaderRead(Run(s, items), s, ShiftIn16(0, items))
  {
    var s1 := Step(s, items[0]);
    assert Run(s, [items[0]]) == s1 by {
      RunSnoc(s, [items[0]]);
      assert [items[0]][..0] == [];
      RunEmpty(s);
    }
    assert s1.phr == ShiftIn16(0, items[..1]) by {
      assert items[..1][..0] == [];
      assert Shl16(0, items[0]) == DataBit(items[0]) as bv16;
    }
    var mid := items[1..15];
    HeaderItems(s1, mid);
    var s15 := Run(s1, mid);
    ShiftIn16Append(0, items[..1], mid);
    assert items[..1] + mid == items[..15];
    ShiftIn16Snoc(0, items, 15);
    assert items[..16] == items;
    RunAppend(s, [items[0]], mid);
    RunAppend(s, [items[0]] + mid, [items[15]]);
    assert [items[0]] + mid + [items[15]] == items;
    assert Run(s15, [items[15]]) == Step(s15, items[15]) by { assert [items[15]][..0] == []; }
  }

  /** A flagged first item and fifteen more bits read the PHR and seed the CRC and whitening register. */
  lemma ReceivePhr(s: Sink, w: bv16)
    requires Inv(s) && s.state == SyncSearch
    ensures HeaderRead(Run(s, FrameItems(ToOctets(w))), s, w)
  {
    var items := FrameItems(ToOctets(w));
    var bits := OctetItems(ToOctets(w));
    HeaderFromFlag(s, items);
    assert DataBit(items[0]) == DataBit(bits[0]) by {
      assert items[0] == bits[0] | 2;
    }
    ShiftIn16DataBits(0, items, bits);
    PhrBits(w);
  }

  /** The octets the deframer stores for a received PSDU: de-whitened when DW is set. */
  function Dewhitened(w: bv16, psdu: seq<bv8>): (d: seq<bv8>)
    ensures |d| == |psdu|
  {
    if Dw(w) then Whiten(psdu) else psdu
  }

  /** Octets read before the length check first fires: `frame_length`, or 1 when that is 0. */
  function OctetsRead(w: bv16): (n: nat)
    ensures 1 <= n <= aMaxPHYPacketSize
  {
    if FrameLength(w) == 0 then 1 else FrameLength(w)
  }

  /** How many of the first `k` stored octets the CRC-32 has run over: those below `frame_length` - 4. */
  function Crc32Seen(fl: int, k: nat): nat
  {
    if k < fl - 4 then k else if fl - 4 < 0 then 0 else fl - 4
  }

  /**
   * The state after the PHR `w` and the first `k` octets of `psdu`: the octets
   * stored so far are the de-whitened ones, the whitening register has advanced
   * `k` times, and the CRC has run over what it should have.
   */
  ghost predicate Receiving(r: Sink, w: bv16, psdu: seq<bv8>, k: nat, queue: seq<Message>)
  {
    Inv(r) && Progress(r, w, psdu, k, queue)
  }

  /** Receiving, less the bounds of Inv (it also holds just after the last octet is stored). */
  ghost predicate Progress(r: Sink, w: bv16, psdu: seq<bv8>, k: nat, queue: seq<Message>)
  {
    var data := Dewhitened(w, psdu);
    r.state == HaveHeader && r.phr == w && r.byteIndex == 0 && r.packetLenCnt == k &&
    |r.packet| == aMaxPHYPacketSize && k <= |psdu| && k <= |r.packet| &&
    r.packet[..k] == data[..k] && r.queue == queue &&
    (Dw(w) ==> r.lfsr == Pn9After(PN9_SEED, k)) &&
    (Fcs16(w) ==> r.crc16 == Crc16Over(INITIAL_CRC16, data[..k])) &&
    (!Fcs16(w) ==> Crc32Seen(FrameLength(w), k) <= k && r.crc32 == Crc32Over(INITIAL_CRC32, data[..Crc32Seen(FrameLength(w), k)]))
  }

  /** Eight items of an octet complete it: the effect is that of OctetDone on that octet. */
  lemma OctetArrives(r: Sink, x: bv8)
    requires Inv(r) && r.state == HaveHeader && r.byteIndex == 0
    ensures Run(r, Bits8(x)) == OctetDone(r, x)
  {
    OctetOfItems(r, Bits8(x));
    ShiftIn8Octet(r.packetByte, x);
  }

  lemma OctetOfItems(r: Sink, b: seq<bv8>)
    requires Inv(r) && r.state == HaveHeader && r.byteIndex == 0 && |b| == 8
    ensures Run(r, b) == OctetDone(r, ShiftIn8(r.packetByte, b))
  {
    OctetItemsPartial(r, b[..7]);
    var r7 := Run(r, b[..7]);
    ShiftIn8Snoc(r.packetByte, b, 7);
    assert b[..8] == b;
    assert Run(r, b) == Step(r7, b[7]);
    OctetDoneIgnoresRegister(r, r7.packetByte, 7, ShiftIn8(r.packetByte, b));
  }

  /** OctetDone does not depend on the octet register or the bit index it overwrites. */
  lemma OctetDoneIgnoresRegister(r: Sink, p: bv8, i: int, x: bv8)
    requires Inv(r) && r.state == HaveHeader && 0 <= i <= 7
    ensures OctetDone(r.(packetByte := p, byteIndex := i), x) == OctetDone(r, x)
  {
    StoreIgnoresRegister(r, p, i, x, FrameLength(r.phr));
  }

  lemma StoreIgnoresRegister(r: Sink, p: bv8, i: int, x: bv8, fl: int)
    requires 0 <= r.packetLenCnt < |r.packet|
    ensures Store(r.(packetByte := p, byteIndex := i), x, fl) == Store(r, x, fl)
  {
  }

  /** The eighth bit of an octet: Step is OctetDone on the register with that bit shifted in. */
  lemma StepCompletesOctet(s: Sink, item: bv8)
    requires Inv(s) && s.state == HaveHeader && s.byteIndex == 7
    ensures var b := Shl8(s.packetByte, item); Step(s, item) == OctetDone(s.(packetByte := b), b)
  {
    var b := Shl8(s.packetByte, item);
    OctetDoneIgnoresRegister(s, b, 7, b);
    assert s.(packetByte := b, byteIndex := 7) == s.(packetByte := b);
  }

  /** Any other bit of an octet is only shifted in and counted. */
  lemma StepHeaderBit(s: Sink, item: bv8)
    requires Inv(s) && s.state == HaveSync
    ensures Step(s, item) == HeaderBit(s, item)
  {
  }

  lemma StepShiftsBit(s: Sink, item: bv8)
    requires Inv(s) && s.state == HaveHeader && s.byteIndex != 7
    ensures Step(s, item) == s.(packetByte := Shl8(s.packetByte, item), byteIndex := s.byteIndex + 1)
  {
  }

  /** The de-whitened octet at `k` is the received one XORed with the keystream byte of the register after `k` steps. */
  lemma DewhitenedAt(w: bv16, psdu: seq<bv8>, k: nat)
    requires k < |psdu|
    ensures Dewhitened(w, psdu)[k] == if Dw(w) then psdu[k] ^ GetPn9Byte(Pn9After(PN9_SEED, k)).0 else psdu[k]
  {
    if Dw(w) {
      Pn9KeystreamAt(PN9_SEED, |psdu|, k);
    }
  }

  /** Storing the `k`-th octet: it is de-whitened, kept, and run through the CRC. */
  lemma {:induction false} StoreProgress(r: Sink, w: bv16, psdu: seq<bv8>, k: nat, q: seq<Message>)
    requires Receiving(r, w, psdu, k, q) && k < |psdu| && k < aMaxPHYPacketSize
    ensures Progress(Store(r, psdu[k], FrameLength(w)), w, psdu, k + 1, q)
  {
    var data := Dewhitened(w, psdu);
    var fl: int := FrameLength(w);
    DewhitenedAt(w, psdu, k);
    Pn9KeystreamSnoc(PN9_SEED, k);
    var t := Store(r, psdu[k], fl);
    assert t.packetByte == data[k];
    PacketGrows(r.packet, data, k);
    if Fcs16(w) {
      Crc16Grows(r.crc16, data, k);
    } else if k < fl - 4 {
      Crc32Grows(r.crc32, data, k);
      assert Crc32Seen(fl, k + 1) == k + 1;
    } else {
      assert Crc32Seen(fl, k + 1) == Crc32Seen(fl, k);
    }
  }

  lemma PacketGrows(p: seq<bv8>, data: seq<bv8>, k: nat)
    requires k < |p| && k < |data| && p[..k] == data[..k]
    ensures p[k := data[k]][..k + 1] == data[..k + 1]
  {
    assert data[..k + 1] == data[..k] + [data[k]];
  }

  lemma Crc16Grows(crc: bv16, data: seq<bv8>, k: nat)
    requires k < |data| && crc == Crc16Over(INITIAL_CRC16, data[..k])
    ensures CrcMsbFirst(crc, data[k]) == Crc16Over(INITIAL_CRC16, data[..k + 1])
  {
    assert data[..k + 1][..k] == data[..k];
  }

  lemma Crc32Grows(crc: bv32, data: seq<bv8>, k: nat)
    requires k < |data| && crc == Crc32Over(INITIAL_CRC32, data[..k])
    ensures UpdateCrc32(crc, data[k]) == Crc32Over(INITIAL_CRC32, data[..k + 1])
  {
    assert data[..k + 1][..k] == data[..k];
  }

  /** An octet that does not end the frame is stored de-whitened and run through the CRC. */
  lemma {:induction false} ReceiveOctet(r: Sink, w: bv16, psdu: seq<bv8>, k: nat, q: seq<Message>)
    requires Receiving(r, w, psdu, k, q) && k < |psdu| && k + 1 < FrameLength(w)
    ensures Receiving(Run(r, Bits8(psdu[k])), w, psdu, k + 1, q)
  {
    OctetArrives(r, psdu[k]);
    StoreProgress(r, w, psdu, k, q);
  }

  /** The octet that reaches `frame_length` delivers the frame with the CRC verdict on all stored octets. */
  lemma {:induction false} ReceiveLastOctet(r: Sink, w: bv16, psdu: seq<bv8>, k: nat, q: seq<Message>)
    requires Receiving(r, w, psdu, k, q) && |psdu| == OctetsRead(w) && k + 1 == |psdu|
    ensures var data := Dewhitened(w, psdu);
      var r' := Run(r, Bits8(psdu[k]));
      r'.state == SyncSearch && r'.queue == q + [Message(0, w, CrcOk(Fcs16(w), data), data)]
  {
    OctetArrives(r, psdu[k]);
    StoreProgress(r, w, psdu, k, q);
    var t := Store(r, psdu[k], FrameLength(w));
    assert OctetDone(r, psdu[k]) == Deliver(t);
    FrameDelivered(t, w, psdu, q);
  }

  /** With all `max(frame_length, 1)` octets stored, delivery queues them with the CRC verdict on them. */
  lemma FrameDelivered(t: Sink, w: bv16, psdu: seq<bv8>, q: seq<Message>)
    requires Progress(t, w, psdu, |psdu|, q) && |psdu| == OctetsRead(w)
    ensures var data := Dewhitened(w, psdu);
      Deliver(t).state == SyncSearch && Deliver(t).queue == q + [Message(0, w, CrcOk(Fcs16(w), data), data)]
  {
    var data := Dewhitened(w, psdu);
    assert data[..|psdu|] == data;
    if !Fcs16(w) {
      Crc32Final(t, FrameLength(w), data, |psdu| - 1);
    }
    DeliverRecord(t, w, data, q, CrcOk(Fcs16(w), data));
  }

  /** Delivery queues the header, the verdict and the stored octets. */
  lemma DeliverRecord(t: Sink, w: bv16, data: seq<bv8>, q: seq<Message>, ok: bool)
    requires |t.packet| == aMaxPHYPacketSize && 0 <= t.packetLenCnt <= |t.packet|
    requires t.phr == w && t.queue == q && t.packet[..t.packetLenCnt] == data
    requires Fcs16(w) ==> ok == (t.crc16 == 0)
    requires !Fcs16(w) ==> ok == Crc32Verdict(t.crc32, t.packet, t.packetLenCnt).1
    ensures Deliver(t).state == SyncSearch && Deliver(t).queue == q + [Message(0, w, ok, data)]
  {
  }

  /** At the end of a CRC-32 frame the register compared is the transmitter's Fcs32Register. */
  lemma Crc32Final(t: Sink, fl: int, data: seq<bv8>, k: nat)
    requires |t.packet| == aMaxPHYPacketSize && 0 <= fl <= aMaxPHYPacketSize
    requires k + 1 == |data| == (if fl == 0 then 1 else fl) && t.packetLenCnt == |data| && t.packet[..|data|] == data
    requires t.crc32 == Crc32Over(INITIAL_CRC32, data[..Crc32Seen(fl, k + 1)])
    ensures Crc32Verdict(t.crc32, t.packet, t.packetLenCnt).1 == Crc32Ok(data)
  {
    var n := |data|;
    if n >= 4 {
      assert Crc32Seen(fl, k + 1) == n - 4;
      assert t.packet[n - 4..n] == data[n - 4..] by {
        assert t.packet[..n][n - 4..] == t.packet[n - 4..n];
      }
      RegisterPadded(t.crc32, data[..n - 4], n);
      VerdictAgrees(t.crc32, t.packet, data);
    }
  }

  /** The octets of a PSDU from the `k`-th on, delivered as one frame. */
  lemma {:induction false} ReceiveOctets(r: Sink, w: bv16, psdu: seq<bv8>, k: nat, q: seq<Message>)
    requires Receiving(r, w, psdu, k, q) && |psdu| == OctetsRead(w) && k < |psdu|
    ensures var data := Dewhitened(w, psdu);
      var r' := Run(r, OctetItems(psdu[k..]));
      r'.state == SyncSearch && r'.queue == q + [Message(0, w, CrcOk(Fcs16(w), data), data)]
    decreases |psdu| - k
  {
    RunOctet(r, psdu, k);
    if k + 1 == |psdu| {
      ReceiveLastOctet(r, w, psdu, k, q);
    } else {
      ReceiveOctet(r, w, psdu, k, q);
      ReceiveOctets(Run(r, Bits8(psdu[k])), w, psdu, k + 1, q);
    }
  }

  /** The items of the octets from the `k`-th on are those of the `k`-th, then of the rest. */
  lemma RunOctet(r: Sink, psdu: seq<bv8>, k: nat)
    requires Inv(r) && k < |psdu|
    ensures Run(r, OctetItems(psdu[k..])) == Run(Run(r, Bits8(psdu[k])), OctetItems(psdu[k + 1..]))
  {
    assert psdu[k..] == [psdu[k]] + psdu[k + 1..];
    OctetItemsAppend([psdu[k]], psdu[k + 1..]);
    OctetItemsOne(psdu[k]);
    RunAppend(r, Bits8(psdu[k]), OctetItems(psdu[k + 1..]));
  }

  lemma FrameItemsAppend(a: seq<bv8>, b: seq<bv8>)
    requires |a| > 0
    ensures FrameItems(a + b) == FrameItems(a) + OctetItems(b)
  {
    var x, y := OctetItems(a), OctetItems(b);
    OctetItemsAppend(a, b);
    assert (x + y)[0] == x[0];
    assert (x + y)[1..] == x[1..] + y;
  }

  lemma StartReceiving(r: Sink, s: Sink, w: bv16, psdu: seq<bv8>)
    requires HeaderRead(r, s, w)
    ensures Receiving(r, w, psdu, 0, s.queue)
  {
    assert Dewhitened(w, psdu)[..0] == [];
    assert r.packet[..0] == [];
  }

  /**
   * Receiving a frame: from SYNC_SEARCH, the flagged bits of a PHR `w` and of
   * the `max(frame_length, 1)` PSDU octets that follow queue exactly one
   * type-0 record holding `w`, the de-whitened octets and the CRC verdict on
   * them, and the deframer searches again.
   */
  lemma ReceiveFrame(s: Sink, w: bv16, psdu: seq<bv8>)
    requires Inv(s) && s.state == SyncSearch && |psdu| == OctetsRead(w)
    ensures var data := Dewhitened(w, psdu);
      var r := Run(s, FrameItems(ToOctets(w) + psdu));
      r.state == SyncSearch && r.queue == s.queue + [Message(0, w, CrcOk(Fcs16(w), data), data)]
  {
    FrameItemsAppend(ToOctets(w), psdu);
    RunAppend(s, FrameItems(ToOctets(w)), OctetItems(psdu));
    ReceivePhr(s, w);
    var r := Run(s, FrameItems(ToOctets(w)));
    StartReceiving(r, s, w, psdu);
    assert psdu[0..] == psdu;
    ReceiveOctets(r, w, psdu, 0, s.queue);
  }

  /**
   * End to end: the bits of a frame the transmitter builds (PHR, payload, FCS,
   * whitening), flagged by the correlator, are delivered as one type-0 record
   * carrying the transmitter's header, payload and FCS, with the CRC accepted.
   */
  lemma LinkDeliversFrame(s: Sink, payloadType: int, fcs16: bool, dw: bool, psduLen: int)
    requires Inv(s) && s.state == SyncSearch
    requires payloadType in {PAYLOAD_TYPE_INCR_BYTE, PAYLOAD_TYPE_PN9, PAYLOAD_TYPE_CRC_TEST}
    requires psduLen <= aMaxPHYPacketSize && (fcs16 ==> Crc16ZeroResidue())
    ensures var n := PsduSize(payloadType, fcs16, psduLen);
      var payload := Payload(payloadType, n - FcsLength(fcs16));
      var r := Run(s, FrameItems(TxFrame(payloadType, fcs16, dw, psduLen)));
      r.state == SyncSearch &&
      r.queue == s.queue + [Message(0, Make(n, dw, fcs16), true, payload + Fcs(payload, fcs16))]
  {
    var n := PsduSize(payloadType, fcs16, psduLen);
    var payload := Payload(payloadType, n - FcsLength(fcs16));
    var psdu := Psdu(payload, fcs16, dw);
    TransmittedPsdu(payloadType, fcs16, dw, psduLen);
    ReceiveFrame(s, Make(n, dw, fcs16), psdu);
    PsduDewhitened(payload, fcs16, dw);
    FcsAccepted(payload, fcs16);
  }

  /** The frame the transmitter builds is its header then a PSDU of exactly the announced length. */
  lemma TransmittedPsdu(payloadType: int, fcs16: bool, dw: bool, psduLen: int)
    requires payloadType in {PAYLOAD_TYPE_INCR_BYTE, PAYLOAD_TYPE_PN9, PAYLOAD_TYPE_CRC_TEST}
    requires psduLen <= aMaxPHYPacketSize
    ensures var n := PsduSize(payloadType, fcs16, psduLen);
      var psdu := Psdu(Payload(payloadType, n - FcsLength(fcs16)), fcs16, dw);
      var w := Make(n, dw, fcs16);
      TxFrame(payloadType, fcs16, dw, psduLen) == ToOctets(w) + psdu && |psdu| == OctetsRead(w) &&
      Fcs16(w) == fcs16 && Dw(w) == dw
  {
    var n := PsduSize(payloadType, fcs16, psduLen);
    PayloadLength(payloadType, fcs16, psduLen);
    MakeFieldsOfLength(n, dw, fcs16);
  }

  /**
   * As written, the CRC-32 check has no guard on the frame length: the header
   * 0x0003 (three octets, CRC-32) takes any three PSDU octets to the check,
   * which then reads index -1, before the start of the buffer.
   */
  lemma ShortFrameReadsBeforeBuffer(s: Sink, psdu: seq<bv8>)
    requires Inv(s) && s.state == SyncSearch && |psdu| == 3
    ensures var r := Run(s, FrameItems(ToOctets(0x0003) + psdu));
      !Fcs16(0x0003) && r.state == SyncSearch && |r.queue| == |s.queue| + 1 &&
      |r.queue[|s.queue|].bytes| == 3 && Crc32ReadIndices(3)[3] < 0
  {
    assert HighByte(0x0003) & 7 == 0 && LowByte(0x0003) == 3;
    ReceiveFrame(s, 0x0003, psdu);
  }

  // ---------------------------------------------------------------------
  // The deframer object: its fields updated in place by `work`
  // ---------------------------------------------------------------------

  class FramerSink {
    var state: SinkState
    var phr: bv16
    var headerBitCnt: int
    var byteIndex: int
    var packetByte: bv8
    var packetLenCnt: int
    /** `d_packet`: the PSDU buffer of aMaxPHYPacketSize octets. */
    const packet: array<bv8>
    var crc32: bv32
    var crc16: bv16
    var lfsr: bv16
    /** The records this deframer has put on its target queue, oldest first. */
    var queue: seq<Message>

    /** The value of the fields. */
    function Fields(): Sink
      reads this, packet
    {
      Sink(state, phr, headerBitCnt, byteIndex, packetByte, packetLenCnt, packet[..], crc32, crc16, lfsr, queue)
    }

    ghost predicate Valid()
      reads this, packet
    {
      Inv(Fields())
    }

    /**
     * Only the state is set; the other members start with whatever values
     * they hold, and nothing reads them before the PHR has set them.
     */
    constructor ()
      ensures Valid() && state == SyncSearch && queue == [] && fresh(packet)
    {
      state := SyncSearch;
      packet := new bv8[aMaxPHYPacketSize];
      queue := [];
    }

    /** `work`: consume every item; the fields end as Run says. */
    method Work(input: seq<bv8>) returns (produced: int)
      requires Valid()
      modifies this, packet
      ensures Valid() && produced == |input|
      ensures Fields() == Run(old(Fields()), input)
    {
      ghost var s0 := Fields();
      var count := 0;
      while count < |input|
        invariant Valid() && 0 <= count <= |input| && Fields() == RunFrom(s0, input, 0, count)
        decreases |input| - count
      {
        var next;
        match state {
          case SyncSearch => next := SearchSync(input, count);
          case HaveSync => next := ReadHeader(input, count);
          case HaveHeader => next := ReadPsdu(input, count);
        }
        RunFromJoin(s0, input, 0, count, next);
        count := next;
      }
      RunFromSlice(s0, input, 0, |input|);
      assert input[0..|input|] == input;
      produced := |input|;
    }

    /** SYNC_SEARCH: pass over items until one is flagged. */
    method SearchSync(input: seq<bv8>, start: nat) returns (count: nat)
      requires Valid() && state == SyncSearch && start < |input|
      modifies this
      ensures start < count <= |input| && Fields() == RunFrom(old(Fields()), input, start, count)
      ensures Valid()
    {
      ghost var s0 := Fields();
      count := start;
      while count < |input|
        invariant Valid() && start <= count <= |input| && Fields() == RunFrom(s0, input, start, count)
        invariant count == start || state == SyncSearch
        decreases |input| - count
      {
        var found := SyncItem(input[count]);
        count := count + 1;
        if found {
          break;
        }
      }
    }

    /** One item in SYNC_SEARCH: a flagged one starts the PHR with its data bit. */
    method SyncItem(item: bv8) returns (found: bool)
      requires Valid() && state == SyncSearch
      modifies this
      ensures Fields() == Step(old(Fields()), item)
      ensures Valid() && found == (state != SyncSearch)
    {
      if item & 2 != 0 {
        state := HaveSync;
        phr := (item & 1) as bv16;
        headerBitCnt := 1;
        found := true;
      } else {
        found := false;
      }
    }

    /** HAVE_SYNC: shift in PHR bits until the sixteenth. */
    method ReadHeader(input: seq<bv8>, start: nat) returns (count: nat)
      requires Valid() && state == HaveSync && start < |input|
      modifies this
      ensures start < count <= |input| && Fields() == RunFrom(old(Fields()), input, start, count)
      ensures Valid()
    {
      ghost var s0 := Fields();
      count := start;
      while count < |input|
        invariant Valid() && start <= count <= |input| && Fields() == RunFrom(s0, input, start, count)
        invariant count == start || state == HaveSync
        decreases |input| - count
      {
        var complete := HeaderItem(input[count]);
        count := count + 1;
        if complete {
          break;
        }
      }
    }

    /** One PHR bit; the sixteenth seeds the CRC (and the whitening register if DW) and starts the PSDU. */
    method HeaderItem(item: bv8) returns (complete: bool)
      requires Valid() && state == HaveSync
      modifies this
      ensures Fields() == Step(old(Fields()), item)
      ensures Valid() && complete == (state != HaveSync)
    {
      ghost var s0 := Fields();
      StepHeaderBit(s0, item);
      phr := Shl16(phr, item);
      headerBitCnt := headerBitCnt + 1;
      complete := false;
      if headerBitCnt == HEADERBITLEN {
        StartPsdu();
        complete := true;
      }
    }

    /** The sixteenth PHR bit: seed the CRC the PHR selects (and the whitening register if DW), start the PSDU. */
    method StartPsdu()
      modifies this`crc16, this`crc32, this`lfsr, this`state, this`byteIndex, this`packetByte, this`packetLenCnt
      ensures crc16 == (if Fcs16(phr) then INITIAL_CRC16 else old(crc16))
      ensures crc32 == (if Fcs16(phr) then old(crc32) else INITIAL_CRC32)
      ensures lfsr == (if Dw(phr) then PN9_SEED else old(lfsr))
      ensures state == HaveHeader && byteIndex == 0 && packetByte == 0 && packetLenCnt == 0
    {
      if Fcs16(phr) {
        crc16 := INITIAL_CRC16;
      } else {
        crc32 := INITIAL_CRC32;
      }
      if Dw(phr) {
        lfsr := PN9_SEED;
      }
      state := HaveHeader;
      byteIndex := 0;
      packetByte := 0;
      packetLenCnt := 0;
    }

    /** HAVE_HEADER: assemble octets until the frame is delivered (or the buffer is full). */
    method ReadPsdu(input: seq<bv8>, start: nat) returns (count: nat)
      requires Valid() && state == HaveHeader && start < |input|
      modifies this, packet
      ensures start < count <= |input| && Fields() == RunFrom(old(Fields()), input, start, count)
      ensures Valid()
    {
      ghost var s0 := Fields();
      count := start;
      while count < |input|
        invariant Valid() && start <= count <= |input| && Fields() == RunFrom(s0, input, start, count)
        invariant count == start || state == HaveHeader
        decreases |input| - count
      {
        var done := PsduItem(input[count]);
        count := count + 1;
        if done {
          break;
        }
      }
    }

    /** One PSDU bit shifted into the octet register; the eighth completes the octet. */
    method PsduItem(item: bv8) returns (done: bool)
      requires Valid() && state == HaveHeader
      modifies this, packet
      ensures Fields() == Step(old(Fields()), item)
      ensures Valid() && done == (state != HaveHeader)
    {
      ghost var s0 := Fields();
      ShiftBit(item);
      if byteIndex == 7 {
        StepCompletesOctet(s0, item);
        done := OctetComplete();
      } else {
        StepShiftsBit(s0, item);
        byteIndex := byteIndex + 1;
        done := false;
      }
    }

    /** Shift the item's data bit into the octet register. */
    method ShiftBit(item: bv8)
      modifies this`packetByte
      ensures packetByte == Shl8(old(packetByte), item)
    {
      packetByte := (packetByte << 1) | (item & 1);
    }

    /**
     * The eighth bit of an octet: de-whiten, update the CRC, store, and deliver
     * the frame when `frame_length` octets are in. `done` says the state left HAVE_HEADER.
     */
    method OctetComplete() returns (done: bool)
      requires Valid() && state == HaveHeader && byteIndex == 7
      modifies this, packet
      ensures Fields() == OctetDone(old(Fields()), old(packetByte))
      ensures Valid() && done == (state != HaveHeader)
    {
      var fl: int := FrameLength(phr);
      StoreOctet(fl);
      done := false;
      if packetLenCnt >= fl {
        DeliverFrame();
        done := true;
      } else if packetLenCnt >= packet.Length {
        // frame_length never exceeds the buffer: see OverrunUnreachable
        assert false;
      }
    }

    /** The bookkeeping of a completed octet, as Store says. */
    method StoreOctet(fl: int)
      requires 0 <= packetLenCnt < packet.Length
      modifies this, packet
      ensures Fields() == Store(old(Fields()), old(packetByte), fl)
    {
      Dewhiten();
      UpdateCrc(fl);
      PutOctet();
    }

    /** The CRC verdict on the frame, its record queued, and back to SYNC_SEARCH. */
    method DeliverFrame()
      requires packet.Length == aMaxPHYPacketSize && 0 <= packetLenCnt <= packet.Length
      modifies this
      ensures Fields() == Deliver(old(Fields()))
    {
      var crcOk;
      if Fcs16(phr) {
        crcOk := crc16 == 0;
      } else {
        crcOk := CheckCrc32();
      }
      queue := queue + [Message(0, phr, crcOk, packet[..packetLenCnt])];
      state := SyncSearch;
    }

    /** De-whiten the completed octet (when DW is set), advancing the PN9 register. */
    method Dewhiten()
      modifies this`packetByte, this`lfsr
      ensures packetByte == if Dw(phr) then old(packetByte) ^ GetPn9Byte(old(lfsr)).0 else old(packetByte)
      ensures lfsr == if Dw(phr) then GetPn9Byte(old(lfsr)).1 else old(lfsr)
    {
      if Dw(phr) {
        var (pn, next) := GetPn9Byte(lfsr);
        packetByte := packetByte ^ pn;
        lfsr := next;
      }
    }

    /** Run the CRC the PHR selects over the octet; CRC-32 only while the count is below `fl` - 4. */
    method UpdateCrc(fl: int)
      modifies this`crc16, this`crc32
      ensures crc16 == if Fcs16(phr) then CrcMsbFirst(old(crc16), packetByte) else old(crc16)
      ensures crc32 == if !Fcs16(phr) && packetLenCnt < fl - 4 then UpdateCrc32(old(crc32), packetByte) else old(crc32)
    {
      if Fcs16(phr) {
        crc16 := CrcMsbFirst(crc16, packetByte);
      } else if packetLenCnt < fl - 4 {
        crc32 := UpdateCrc32(crc32, packetByte);
      }
    }

    /** Store the octet at the count, count it and restart the bit index. */
    method PutOctet()
      requires 0 <= packetLenCnt < packet.Length
      modifies this`packetLenCnt, this`byteIndex, packet
      ensures packet[..] == old(packet[..])[old(packetLenCnt) := packetByte]
      ensures packetLenCnt == old(packetLenCnt) + 1 && byteIndex == 0
    {
      packet[packetLenCnt] := packetByte;
      packetLenCnt := packetLenCnt + 1;
      byteIndex := 0;
    }

    /**
     * The CRC-32 verdict: pad with zero octets up to eight, complement, compare
     * with the last four stored octets (a frame shorter than four fails).
     */
    method CheckCrc32() returns (crcOk: bool)
      requires 0 <= packetLenCnt <= packet.Length
      modifies this`crc32
      ensures (crc32, crcOk) == Crc32Verdict(old(crc32), packet[..], packetLenCnt)
    {
      PadCrc32();
      crc32 := !crc32;
      crcOk := false;
      if packetLenCnt >= 4 {
        var rxCrc := Word32(packet[packetLenCnt - 4..packetLenCnt]);
        assert packet[packetLenCnt - 4..packetLenCnt] == packet[..][packetLenCnt - 4..packetLenCnt];
        crcOk := rxCrc == crc32;
      }
    }

    /** Run the CRC-32 register over zero octets until eight octets in all have been seen. */
    method PadCrc32()
      modifies this`crc32
      ensures crc32 == PadRegister(old(crc32), packetLenCnt)
    {
      var n := packetLenCnt;
      while n < 8
        invariant PadRegister(crc32, n) == PadRegister(old(crc32), packetLenCnt)
        decreases 8 - n
      {
        crc32 := UpdateCrc32(crc32, 0);
        n := n + 1;
      }
    }
  }

}
