/**
 * The MR-FSK PHY header (PHR) of lib/utils_mrfsk.h: a 16-bit word laid out as in
 * section 18.1.1.3 of IEEE 802.15.4g-2012, and the constants the framers share.
 *
 *   bit 15     MS            mode switch, always 0 here
 *   bits 14-13 reserved
 *   bit 12     FCS           1 = 16-bit CRC, 0 = 32-bit CRC
 *   bit 11     DW            data whitening
 *   bits 10-0  frame_length  PSDU length in octets, FCS included
 */
module Phr {
  import opened Primitives

  /** Largest PSDU, in octets (section 9.2, table 70 of the standard). */
  const aMaxPHYPacketSize: nat := 2047

  /** The PHR is two octets long. */
  const PHR_LENGTH: nat := 2

  /** Register values the two frame check sequences start from. */
  const INITIAL_CRC16: bv16 := 0x0000
  const INITIAL_CRC32: bv32 := 0xFFFF_FFFF

  const DW_BIT: bv16 := 0x0800
  const FCS_BIT: bv16 := 0x1000
  const LENGTH_MASK: bv16 := 0x07FF

  /** `phr.bits.frame_length`: bits 10..0 (the low three bits of the high octet, then the low octet). */
  function FrameLength(w: bv16): (n: nat)
    ensures n <= aMaxPHYPacketSize
  {
    ((HighByte(w) & 7) as nat) * 256 + (LowByte(w) as nat)
  }

  /** `phr.bits.DW`: bit 11. */
  predicate Dw(w: bv16) { w & DW_BIT != 0 }

  /** `phr.bits.FCS`: bit 12; set selects the 16-bit CRC, clear the 32-bit CRC. */
  predicate Fcs16(w: bv16) { w & FCS_BIT != 0 }

  /** `phr.bits.reserved`: bits 14..13. */
  function Reserved(w: bv16): bv16 { (w >> 13) & 3 }

  /** `phr.bits.MS`: bit 15. */
  predicate Ms(w: bv16) { w & 0x8000 != 0 }

  /**
   * The header the transmitter builds: the word starts at 0, then DW, FCS and
   * frame_length are assigned (the length is truncated to its 11-bit field).
   * What it holds is stated by MakeReadBack and MakeFields.
   */
  function Make(frameLength: int, dw: bool, fcs16: bool): bv16
  {
    var len := frameLength % 2048;
    FromOctets(FlagOctet(dw, fcs16) | (len / 256) as bv8, (len % 256) as bv8)
  }

  /** The high octet's DW (0x08) and FCS (0x10) bits. */
  function FlagOctet(dw: bool, fcs16: bool): bv8
  {
    (if dw then 0x08 else 0) | (if fcs16 then 0x10 else 0)
  }

  /** Reading the fields back from a built header gives what was packed. */
  lemma MakeReadBack(frameLength: int, dw: bool, fcs16: bool)
    ensures FrameLength(Make(frameLength, dw, fcs16)) == frameLength % 2048
    ensures Dw(Make(frameLength, dw, fcs16)) == dw && Fcs16(Make(frameLength, dw, fcs16)) == fcs16
    ensures Reserved(Make(frameLength, dw, fcs16)) == 0 && !Ms(Make(frameLength, dw, fcs16))
  {
    var len := frameLength % 2048;
    var hi: bv8 := (len / 256) as bv8;
    var lo: bv8 := (len % 256) as bv8;
    SmallOctet(len / 256);
    OctetValue(len % 256);
    FlagsOctet(FlagOctet(dw, fcs16), hi, lo);
  }

  lemma SmallOctet(x: int)
    requires 0 <= x < 8
    ensures (x as bv8) < 8 && (x as bv8) as int == x
  {
  }

  lemma OctetValue(x: int)
    requires 0 <= x < 256
    ensures (x as bv8) as int == x
  {
    var b: bv16 := x as bv16;
    assert b < 256;
  }

  lemma FlagsOctet(flags: bv8, hi: bv8, lo: bv8)
    requires hi < 8 && flags & 0xE7 == 0
    ensures HighByte(FromOctets(flags | hi, lo)) & 7 == hi
    ensures LowByte(FromOctets(flags | hi, lo)) == lo
    ensures Dw(FromOctets(flags | hi, lo)) == (flags & 0x08 != 0)
    ensures Fcs16(FromOctets(flags | hi, lo)) == (flags & 0x10 != 0)
    ensures Reserved(FromOctets(flags | hi, lo)) == 0 && !Ms(FromOctets(flags | hi, lo))
  {
  }

  /** Every word with clear reserved and MS bits is the header its own fields make. */
  lemma MakeFields(w: bv16)
    requires Reserved(w) == 0 && !Ms(w)
    ensures Make(FrameLength(w), Dw(w), Fcs16(w)) == w
  {
    MakeOfLength(w, Dw(w), Fcs16(w));
    HeaderFromFields(w, FlagOctet(Dw(w), Fcs16(w)));
  }

  lemma MakeOfLength(w: bv16, dw: bool, fcs16: bool)
    ensures Make(FrameLength(w), dw, fcs16) == FromOctets(FlagOctet(dw, fcs16) | (HighByte(w) & 7), LowByte(w))
  {
    var h, l := HighByte(w) & 7, LowByte(w);
    LengthDigits(h, l);
    MakeFromDigits(FrameLength(w), dw, fcs16, h, l);
  }

  lemma MakeFromDigits(n: int, dw: bool, fcs16: bool, hi: bv8, lo: bv8)
    requires 0 <= n < 2048 && hi as int == n / 256 && lo as int == n % 256
    ensures Make(n, dw, fcs16) == FromOctets(FlagOctet(dw, fcs16) | hi, lo)
  {
    assert n % 2048 == n;
    OctetBack(n / 256, hi);
    OctetBack(n % 256, lo);
  }

  lemma LengthDigits(h: bv8, l: bv8)
    requires h < 8
    ensures var len := (h as int) * 256 + (l as int);
      len % 2048 == len && len / 256 == h as int && len % 256 == l as int
  {
  }

  lemma OctetBack(q: int, b: bv8)
    requires q == b as int
    ensures q as bv8 == b
  {
  }

  lemma HeaderFromFields(w: bv16, flags: bv8)
    requires Reserved(w) == 0 && !Ms(w)
    requires flags == FlagOctet(Dw(w), Fcs16(w))
    ensures FromOctets(flags | (HighByte(w) & 7), LowByte(w)) == w
  {
  }

  /** A frame length fits the field exactly when it is at most aMaxPHYPacketSize. */
  lemma MakeFrameLengthExact(frameLength: int, dw: bool, fcs16: bool)
    requires 0 <= frameLength
    ensures FrameLength(Make(frameLength, dw, fcs16)) == frameLength <==> frameLength <= aMaxPHYPacketSize
  {
    MakeReadBack(frameLength, dw, fcs16);
  }

  /** The header as it travels on the air: high octet first. */
  function ToOctets(w: bv16): (r: seq<bv8>)
    ensures |r| == PHR_LENGTH
  {
    [HighByte(w), LowByte(w)]
  }

  /** `phr.word = buf[0] << 8 | buf[1]` on the receive side. */
  function FromOctets(hi: bv8, lo: bv8): bv16
  {
    ((hi as bv16) << 8) | (lo as bv16)
  }

  lemma OctetsRoundTrip(w: bv16)
    ensures FromOctets(ToOctets(w)[0], ToOctets(w)[1]) == w
  {
  }

  lemma FromOctetsRoundTrip(hi: bv8, lo: bv8)
    ensures ToOctets(FromOctets(hi, lo)) == [hi, lo]
  {
  }

  /** The headers the receive tests expect. */
  lemma TestVectors()
    ensures FrameLength(0x0807) == 7 && Dw(0x0807) && !Fcs16(0x0807)
    ensures FrameLength(0x1005) == 5 && !Dw(0x1005) && Fcs16(0x1005)
    ensures FrameLength(0x0007) == 7 && !Dw(0x0007) && !Fcs16(0x0007)
    ensures Make(7, true, false) == 0x0807 && Make(5, false, true) == 0x1005
  {
    assert HighByte(0x0807) & 7 == 0 && LowByte(0x0807) == 7;
    assert HighByte(0x1005) & 7 == 0 && LowByte(0x1005) == 5;
    assert HighByte(0x0007) & 7 == 0 && LowByte(0x0007) == 7;
    MakeFields(0x0807);
    MakeFields(0x1005);
  }
}
