# IEEE 802.15.4g MR-FSK PHY of gr-ieee802154g, in Dafny

This project models the core of gr-ieee802154g, a GNU Radio implementation of the
MR-FSK physical layer of IEEE 802.15.4g-2012. It proves properties of that model.

The core has five parts.

- **The PHR.** This is the two-octet PHY header of lib/utils_mrfsk.h: an 11-bit
  `frame_length`, the DW (data whitening) bit, the FCS bit (1 selects CRC-16,
  0 selects CRC-32), two reserved bits and the MS bit.
- **The transmitter `mrfsk_source`.** `generate_packet` writes a whole
  over-the-air packet into the fixed buffer `rf_buf`. The packet is:
  - preamble octets of 0x55;
  - the SFD, 0x90 0x4E uncoded or 0x6F 0x4E coded;
  - the PHR and the PSDU. The PSDU is a payload of one of three kinds (CRC test,
    PN9, incrementing) followed by a CRC-16 or CRC-32 FCS, whitened when DW is set.

  With FEC, the PHR and PSDU go through the NRNSC encoder (`encode_bit`). Three tail
  bits and a 5- or 13-bit pad follow, and every 32 code bits are interleaved.
  `work` hands the packet out one octet per output item, from a state machine that
  adds start-up filler, a pad octet and a gap of zeros. It tags where the power
  amplifier is switched on and off (`pa_enable`).
- **The uncoded deframer `framer_sink_mrfsk`.** It takes correlator output: data in
  bit 0, the sync flag in bit 1. It assembles the PHR and the PSDU, de-whitens
  them, checks the FCS, and queues one record per frame.
- **The FEC deframer `framer_sink_mrfsk_nrnsc`.** It de-interleaves 32-bit blocks,
  decodes them with the majority-vote NRNSC decoder (`decode_ui`, `shift_weights`,
  `push_bit`), then does the same framing.
- **The integer part of `preamble_detector`.** `work_2ui` tracks the upward and
  downward mid-level crossings of a two-symbol window. It keeps a preamble
  confidence counter and updates the integer sample points.

## How it is built

Pure logic is written as datatypes and functions, with lemmas about them.

Code that updates fields in place is written as classes whose methods mirror the
C++:
- `MrfskSourceImpl.SourceBlock`, with `rf_buf` and `phr_psdu_buf` as arrays;
- `FramerSinkMrfsk.FramerSink`, with `d_packet` as an array;
- `FramerSinkNrnsc.FecFramerSink`, with `weights` and `phr_psdu_buf` as arrays;
- `Preamble.PreambleDetector`.

Each method is proved against a function of the inputs and the old fields:
- `Step` and `Run` for the deframers;
- `Step`, `Produce`, `Load`, `Build` and `EncodeBitF` for the transmitter;
- `TrackIntended` for the preamble detector.

The properties the system promises are then proved about those functions:
- the PHR round trip;
- whitening being its own inverse;
- a frame with its own FCS being accepted;
- NRNSC decoding returning the encoded bits;
- the packet's layout on the air, the shape of a whole packet cycle, and the
  start-up and PN9-forever output;
- end-to-end: the bits of the frame the transmitter builds are delivered by the
  deframer as one record with the transmitter's header and payload and the CRC
  accepted (`FramerSinkMrfsk.LinkDeliversFrame`);
- end-to-end with FEC: an encoded, interleaved frame on the air is decoded
  symbol by symbol in step with the reference decoder and delivered as one
  type-1 record with its PHR, the de-whitened PSDU and the CRC verdict
  (`FecFrame.ReceiveCodedFrame`); with paired interleavers, the packet the
  transmitter encodes is delivered with its header, payload and FCS and the
  CRC accepted (`FecLink.CodedPacketDelivered`).

### Modules

| module | file | models |
|---|---|---|
| Bits | bits.dfy | single-bit masks `0x80 >> k` and setting or clearing under them |
| Folds | folds.dfy | generic runs of a step function over items, and over output positions |
| Primitives | primitives.dfy | the helpers declared in lib/utils_mrfsk.h: PN9, the CRCs, the interleavers, big-endian words |
| Phr | phr.dfy | the `MRFSK_PHR_t` union |
| Frame | frame.dfy | the PHR + PSDU frame both sides agree on: payloads, FCS, whitening, the CRC-32 verdict |
| Nrnsc | nrnsc.dfy | the NRNSC encoder of `encode_bit` and the decoder of `decode_ui`, `shift_weights`, `push_bit` |
| MrfskSource | mrfsk_source.dfy | what `generate_packet` leaves in `rf_buf`, and `encode_bit` step by step |
| MrfskSourceBlock | mrfsk_source_block.dfy | the `work` state machine as functions (Step, Produce) and the packet (Build, Air) |
| MrfskSourceImpl | mrfsk_source_impl.dfy | the class `SourceBlock`: constructor, `work`, `generate_packet`, `encode_bit`, `pa_enable` |
| FramerSinkMrfsk | framer_sink.dfy | the uncoded deframer: Step/Run and the class `FramerSink` |
| FramerSinkNrnsc | framer_sink_nrnsc.dfy | the FEC deframer: Step/Run and the class `FecFramerSink` |
| FecReception | fec_reception.dfy | one symbol of a coded frame at a time: the decoder in step with the reference decoder, the PHR read, the PSDU stored and the record delivered |
| FecFrame | fec_frame.dfy | a whole coded frame: block after block from the sync flag to the delivered record |
| FecLink | fec_link.dfy | the FEC transmitter's packet through the FEC deframer |
| Preamble | preamble_detector.dfy | `work_2ui` on integers: Track/TrackIntended and the class `PreambleDetector` |

### Where the model and the documented design differ

- **The even pad is 13 bits, not 12.** After the three tail bits, a frame of an
  even number of octets gets a 13-bit pad in the code. The documented design says
  12. The model follows the code (`MrfskSource.Pad`). Tail and pad then always
  make one or two octets 0x0B (`MrfskSource.PadBits`), so the coded stream is a
  whole number of 32-bit blocks (`MrfskSource.FecBitsAreOctets`).

### Where the model departs from the code

- **The preamble detector class uses the corrected reset.** The upward crossing
  reset uses the intended value, not the one written (see Findings). The
  as-written function `Preamble.Track` is kept beside it.
- **The uncoded deframer uses the guarded CRC-32 verdict** `Frame.Crc32Verdict`
  (see Findings): a frame shorter than its four FCS octets fails the check
  without reading. The FEC deframer keeps the verdict as written
  (`FramerSinkNrnsc.FecCrc32Verdict`), which reads the four octets before the
  end, PHR octets included, and replaces only the reads before the buffer
  (a PSDU of fewer than two octets) by a failed check.

## Model

| member | source | states |
|---|---|---|
| Phr.FrameLength | lib/utils_mrfsk.h:26-38 | the `frame_length` field never exceeds aMaxPHYPacketSize (2047) |
| Phr.MakeReadBack | lib/mrfsk_source_impl.cc:244-247 | a header built from length, DW and FCS reads back the length modulo 2048 and the same flags, with reserved and MS clear |
| Phr.MakeFields | lib/utils_mrfsk.h:29-38 | every word with reserved and MS clear is exactly the header its own fields build |
| Phr.MakeFrameLengthExact | lib/utils_mrfsk.h:26-38 | a length survives the 11-bit field if and only if it is at most aMaxPHYPacketSize |
| Phr.ToOctets | lib/mrfsk_source_impl.cc:249-250 | the header goes on the air as PHR_LENGTH octets |
| Phr.OctetsRoundTrip | lib/mrfsk_source_impl.cc:249-250 | reading the two octets back (high first, as the FEC receiver does) gives the header word |
| Phr.FromOctetsRoundTrip | lib/framer_sink_mrfsk_nrnsc_impl.cc:116-117 | the word read from two octets is written back as the same two octets |
| Phr.TestVectors | python/qa_framer_sink_mrfsk.py:65-123 | the headers 0x0807, 0x1005 and 0x0007 of the receive tests decode to the lengths and flags the tests expect, and are built from them |
| Primitives.Word32BigEndian | lib/mrfsk_source_impl.cc:294-297 | a 32-bit word written most significant octet first reads back as the word |
| Primitives.BigEndian32Word | lib/framer_sink_mrfsk_impl.cc:143-146 | four octets read big-endian and written back are the same octets |
| Primitives.Pn9KeystreamAt | lib/utils_mrfsk.h:48 | octet k of the keystream is the one `get_pn9_byte` draws from the register after k calls |
| Primitives.XorBytes | lib/mrfsk_source_impl.cc:300-304 | the XOR of two equal-length octet strings, octet by octet |
| Primitives.WhitenInvolution | lib/mrfsk_source_impl.cc:300-304 | whitening twice with the PN9 keystream from seed 0x1FF gives the data back, so the receiver undoes the transmitter |
| Primitives.Crc16OverAppend | lib/utils_mrfsk.h:45 | the CRC-16 run over a concatenation is run over each part in turn, so octet-at-a-time receiving equals one call over the whole |
| Primitives.Crc32OverAppend | lib/utils_mrfsk.h:44 | the same for the CRC-32 |
| Primitives.Crc16AppendedResidue | lib/framer_sink_mrfsk_impl.cc:129-131 | given the CRC's zero-residue property, a payload followed by its own CRC-16 runs the register to 0 |
| Primitives.Zeros | lib/mrfsk_source_impl.cc:285-292 | the zero octets of the CRC-32 padding |
| Primitives.Crc32OverZerosSnoc | lib/mrfsk_source_impl.cc:289-292 | one more padding octet is one more CRC-32 update by zero |
| Frame.PsduSize | lib/mrfsk_source_impl.cc:72-87 | `psdu_size` is 5 or 7 for the CRC test frame, else the requested length raised to at least the FCS length |
| Frame.IncrCounterWraps | lib/mrfsk_source_impl.cc:270-272 | the 8-bit `payload_incr_octet` holds n mod 256 after n increments |
| Frame.IncrPayloadAt | lib/mrfsk_source_impl.cc:269-274 | octet i of the incrementing payload is i mod 256 bit-reversed |
| Frame.PayloadLength | lib/mrfsk_source_impl.cc:252-276 | for the three known payload types, payload plus FCS fill exactly `psdu_size` |
| Frame.Crc32PadLength | lib/mrfsk_source_impl.cc:288-292 | the CRC-32 covers at least four octets: no padding from four payload octets on, up to four otherwise |
| Frame.Fcs | lib/mrfsk_source_impl.cc:279-298 | the FCS is 2 octets for CRC-16 and 4 for CRC-32 |
| Frame.Psdu | lib/mrfsk_source_impl.cc:279-304 | the PSDU is payload plus FCS, one octet longer per FCS octet |
| Frame.PhrPsdu | lib/mrfsk_source_impl.cc:244-306 | `phr_psdu_buf` holds the PHR octets and the PSDU |
| Frame.Crc32ReadIndices | lib/framer_sink_mrfsk_impl.cc:143-146 | the receivers read the FCS from the four positions before the end, with no guard |
| Frame.ShortFrameRejected | lib/framer_sink_mrfsk_impl.cc:134-151 | the guarded CRC-32 verdict fails every frame shorter than its four FCS octets |
| Frame.PadRegisterZeros | lib/framer_sink_mrfsk_impl.cc:135-141 | the receive padding loop runs the CRC-32 over 8 - n zero octets (none from eight on) |
| Frame.VerdictAgrees | lib/framer_sink_mrfsk_impl.cc:134-151 | when the register compared is the one over the payload, the verdict is "the last four octets are the payload's CRC-32" |
| Frame.RegisterPadded | lib/framer_sink_mrfsk_impl.cc:135-142 | the receiver's padded, complemented register equals the transmitter's FCS register over the same payload |
| Frame.FcsAccepted | lib/framer_sink_mrfsk_impl.cc:127-151 | a payload followed by its own FCS passes the receivers' CRC check, for either FCS type |
| Frame.PsduDewhitened | lib/framer_sink_mrfsk_impl.cc:117-118 | de-whitening the PSDU the transmitter built gives back payload and FCS |
| Frame.TxFrame | lib/mrfsk_source_impl.cc:244-306 | the frame the transmitter builds starts with the PHR |
| Frame.PhrAnnouncesPsdu | lib/mrfsk_source_impl.cc:244-306 | the PHR of a built frame announces exactly the PSDU length that follows it, with the chosen DW and FCS flags |
| Frame.MakeFieldsOfLength | lib/mrfsk_source_impl.cc:244-247 | a length that fits the field is read back unchanged, with the flags |
| Frame.HeaderOctets | lib/framer_sink_mrfsk_nrnsc_impl.cc:116-117 | the first two octets of PHR-then-PSDU read back as the header word |
| Frame.OctetItemsAppend | lib/framer_sink_mrfsk_impl.cc:113-116 | the bit items of a concatenation are those of each part |
| Frame.FrameItems | lib/framer_sink_mrfsk_impl.cc:69-83 | the correlator's items for a frame: eight per octet, MSB first, the first one flagged |
| Bits.MaskLead | lib/framer_sink_mrfsk_nrnsc_impl.cc:238-240 | a one-bit mask is the mask of its own position |
| Bits.LeadMask | lib/framer_sink_mrfsk_nrnsc_impl.cc:238-240 | every bit position has a mask, and the position is found again from it |
| Bits.MaskMoves | lib/mrfsk_source_impl.cc:199-201 | `>>= 1` moves a mask one bit down, reaching zero exactly after the last bit; 0x80 restarts at bit 0 |
| Bits.SetBitShows | lib/mrfsk_source_impl.cc:193-197 | setting or clearing under the mask of bit k changes bit k only |
| Bits.WrittenBit | lib/framer_sink_mrfsk_nrnsc_impl.cc:230-236 | writing bit b of octet i changes buffer bit 8i+b only |
| Nrnsc.Shifted | lib/mrfsk_source_impl.cc:185-188 | a data bit shifts the encoder registers bi, M0, M1, M2 by one |
| Nrnsc.Symbol | lib/mrfsk_source_impl.cc:190-210 | the symbol sent is ui1 then ui0, each complemented |
| Nrnsc.EncoderAfterHoldsBits | lib/mrfsk_source_impl.cc:185-188 | after n data bits the registers hold the last four of them (zeros before the start) |
| Nrnsc.EncodeAt | lib/mrfsk_source_impl.cc:180-220 | symbol t of the code is the symbol of the registers once bit t is in |
| Nrnsc.DecodeUi | lib/framer_sink_mrfsk_nrnsc_impl.cc:176-216 | one vote into each counter (W3Vote for the newest, parities of the last three symbols for the others); the history moves on |
| Nrnsc.ShiftWeights | lib/framer_sink_mrfsk_nrnsc_impl.cc:218-225 | the counters move down one place and a cleared one enters at the top |
| Nrnsc.Cleared | lib/framer_sink_mrfsk_nrnsc_impl.cc:80-81 | a sync clears all four counters and keeps the symbol history |
| Nrnsc.Decoded | lib/framer_sink_mrfsk_nrnsc_impl.cc:97-113 | one bit is pushed per symbol from the fourth on |
| Nrnsc.SymbolShows | lib/framer_sink_mrfsk_nrnsc_impl.cc:198-211 | a symbol's parity is M0, and its first bit tells the parity of bi, M1, M2 |
| Nrnsc.ParOfSymbol | lib/framer_sink_mrfsk_nrnsc_impl.cc:198-211 | the parity of the symbol for bit t is bit t-1 |
| Nrnsc.W3VoteOfSymbols | lib/framer_sink_mrfsk_nrnsc_impl.cc:179-196 | from the newest symbol and the two before it, the W3 vote recovers the newest data bit |
| Nrnsc.W3VoteIsXor | lib/framer_sink_mrfsk_nrnsc_impl.cc:182-192 | the four branches of the W3 vote compute one XOR of the symbol bit and two parities |
| Nrnsc.DecoderTracks | lib/framer_sink_mrfsk_nrnsc_impl.cc:97-113 | on an error-free stream, the counters agree in sign with the three bits not yet pushed |
| Nrnsc.DecodedBitAt | lib/framer_sink_mrfsk_nrnsc_impl.cc:228-236 | decoding the symbol of bit t pushes bit t-3 |
| Nrnsc.DecodeEncodePrefix | lib/framer_sink_mrfsk_nrnsc_impl.cc:97-113 | the decoder returns the encoded bits three symbols late |
| Nrnsc.DecodeEncode | lib/framer_sink_mrfsk_nrnsc_impl.cc:97-113 | decoding the whole error-free code gives every data bit but the last three (the tail) |
| MrfskSource.Sfd | lib/mrfsk_source_impl.cc:237-242 | the SFD is 0x6F 0x4E coded and 0x90 0x4E uncoded |
| MrfskSource.Preamble | lib/mrfsk_source_impl.cc:234-235 | `preamble_bytes` octets of 0x55, none when the setting is not positive |
| MrfskSource.PreambleNext | lib/mrfsk_source_impl.cc:234-235 | each pass of the preamble loop extends the preamble by one octet over the buffer |
| MrfskSource.HeaderPut | lib/mrfsk_source_impl.cc:237-242 | the SFD written after the preamble makes the header, the rest of the buffer unchanged |
| MrfskSource.PutWord | lib/mrfsk_source_impl.cc:294-297 | four octet stores replace the four octets at i by the big-endian word |
| MrfskSource.Pad | lib/mrfsk_source_impl.cc:343-418 | the pad is 5 bits for an odd number of octets and 13 for an even number |
| MrfskSource.FecBits | lib/mrfsk_source_impl.cc:316-418 | the encoder is fed the frame bits MSB first, then the tail and the pad |
| MrfskSource.OctetBitsAt | lib/mrfsk_source_impl.cc:316-319 | bit k of octet i is stream bit 8i+k, the one under `0x80 >> k` |
| MrfskSource.PadBits | lib/mrfsk_source_impl.cc:331-418 | tail and pad are the bits of one octet 0x0B (odd) or two (even) |
| MrfskSource.FecBitsAreOctets | lib/mrfsk_source_impl.cc:316-418 | the coded stream is the frame plus the pad octets, an even number of octets, a multiple of 16 bits |
| MrfskSource.FecBitsBlocks | lib/mrfsk_source_impl.cc:316-419 | the stream holds one 32-code-bit block per two frame octets, plus one |
| MrfskSource.CodeBytesAt | lib/mrfsk_source_impl.cc:190-217 | code octet q packs symbols 4q to 4q+3, the first in the top bits |
| MrfskSource.InterleaveBlockWord | lib/utils_mrfsk.h:46-47 | the transmit permutation `interleave` on four octets is the bit permutation `Interleave` on their big-endian word (the receive side's `interleave_u32` is a separate function, related to it only through the premise `InterleavePaired`) |
| MrfskSource.InterleavedTail | lib/mrfsk_source_impl.cc:324-327 | octets after the blocks interleaved so far are untouched |
| MrfskSource.InterleavedBlock | lib/mrfsk_source_impl.cc:324-327 | each interleaved block is the permutation of the same code block |
| MrfskSource.CodedAir | lib/mrfsk_source_impl.cc:308-419 | the coded octets are all the blocks when they fit, else exactly the room left, the buffer filled |
| MrfskSource.FecAir | lib/mrfsk_source_impl.cc:308-419 | the coded part of the packet is 4 octets per block, or the room left in `rf_buf` |
| MrfskSource.FecAirLength | lib/mrfsk_source_impl.cc:308-419 | coded, a frame takes twice its octets plus 2 (odd) or 4 (even) |
| MrfskSource.PutCodeBit | lib/mrfsk_source_impl.cc:193-204 | a code bit written keeps the buffer size, a one-bit mask and the registers |
| MrfskSource.EncodeBitSteps | lib/mrfsk_source_impl.cc:180-220 | `encode_bit` writes complemented ui1; it stops with -1 if that filled the buffer, else writes complemented ui0 and fails only if that filled it |
| MrfskSource.PutCodeBitMoves | lib/mrfsk_source_impl.cc:193-204 | under any mask but the last, a code bit changes only that bit and moves the mask |
| MrfskSource.PutCodeBitCloses | lib/mrfsk_source_impl.cc:193-204 | under the last mask, a code bit closes the octet and restarts the mask at 0x80 |
| MrfskSource.EncodeBitWrites | lib/mrfsk_source_impl.cc:180-220 | with the mask on an even bit, one call writes one whole symbol into the current octet, closing it after its fourth symbol |
| MrfskSource.MergeStep | lib/mrfsk_source_impl.cc:193-210 | writing the next symbol's bits over a partly written octet merges one symbol more |
| MrfskSource.WrittenStep | lib/mrfsk_source_impl.cc:316-329 | coding one more data bit changes the octet being filled and nothing else |
| MrfskSource.CoderStep | lib/mrfsk_source_impl.cc:180-220 | one call moves the buffer from k symbols of the octet written to k+1, and fails exactly at the end of `rf_buf` |
| MrfskSource.EncodeStep | lib/mrfsk_source_impl.cc:316-329 | each data bit keeps the coding invariant one symbol further on; failure means the last octet of `rf_buf` closed |
| MrfskSource.InterleaveWritten | lib/mrfsk_source_impl.cc:324-327 | interleaving the last four octets written interleaves one more block of the code |
| MrfskSource.BlockDone | lib/mrfsk_source_impl.cc:323-327 | at 32 code bits, the `interleave` of the last four octets interleaves exactly the block just closed |
| MrfskSource.DataStep | lib/mrfsk_source_impl.cc:316-329 | a frame bit keeps the invariant, the count being twice the bits since the last block; on failure the buffer holds what FecAir says |
| MrfskSource.TailStep | lib/mrfsk_source_impl.cc:331-418 | a tail or pad bit keeps the invariant, or ends with what FecAir says |
| MrfskSource.EncodeAborted | lib/mrfsk_source_impl.cc:319-321 | a failing `encode_bit` (the "fec abort") leaves the coded part FecAir describes |
| MrfskSource.WrittenPrefix | lib/mrfsk_source_impl.cc:316-329 | at an octet boundary, the buffer is the interleaved code so far, then the old buffer |
| MrfskSource.CodedAirCut | lib/mrfsk_source_impl.cc:202-203 | when the code does not fit, the air is the code cut at the end of the buffer, its last block not interleaved |
| MrfskSource.AirLaid | lib/mrfsk_source_impl.cc:308-419 | a buffer holding the air from `start` and the old octets after it is the air laid over the old buffer |
| MrfskSource.AbortedAir | lib/mrfsk_source_impl.cc:319-321 | after a failure, the full buffer holds the air with its last block not interleaved |
| MrfskSource.FinishedAir | lib/mrfsk_source_impl.cc:419 | after the last interleave, the buffer holds the whole coded air |
| MrfskSource.FecAirHeld | lib/mrfsk_source_impl.cc:308-419 | the coded frame, tail and pad are the coded part FecAir describes |
| MrfskSource.FecAborted | lib/mrfsk_source_impl.cc:319-321 | a failure while coding the frame leaves what FecAir says |
| MrfskSource.FecFinished | lib/mrfsk_source_impl.cc:419 | coding to the end, last block interleaved, leaves what FecAir says |
| MrfskSource.FecLastBlock | lib/mrfsk_source_impl.cc:419 | after the pad the last block is complete and its interleave closes the coding |
| MrfskSourceBlock.PayloadSize | lib/mrfsk_source_impl.cc:252-255 | `psdu_size_wo_crc` plus the FCS length is `psdu_size` |
| MrfskSourceBlock.PayloadOf | lib/mrfsk_source_impl.cc:257-276 | the payload is at most `psdu_size_wo_crc` octets |
| MrfskSourceBlock.FrameOf | lib/mrfsk_source_impl.cc:244-306 | the frame fits `phr_psdu_buf` |
| MrfskSourceBlock.Room | lib/mrfsk_source_impl.cc:308-309 | coded, at least one octet of `rf_buf` is left after the SFD |
| MrfskSourceBlock.Air | lib/mrfsk_source_impl.cc:222-425 | the packet on the air has the two SFD octets at least and fits `rf_buf` |
| MrfskSourceBlock.Build | lib/mrfsk_source_impl.cc:222-425 | the packet built fits `rf_buf` and has an SFD |
| MrfskSourceBlock.LaidAir | lib/mrfsk_source_impl.cc:420-424 | the header, then the frame coded or copied after it, is the packet laid over the old buffer |
| MrfskSourceBlock.BuildParts | lib/mrfsk_source_impl.cc:222-425 | the built packet's air, frame, PHR, PN9 register, CRCs and encoder registers are the ones their functions describe |
| MrfskSourceBlock.OverlayLaid | lib/mrfsk_source_impl.cc:420-424 | the packet laid over a longer buffer is its prefix, the rest kept |
| MrfskSourceBlock.StepKeepsInv | lib/mrfsk_source_impl.cc:108-164 | every item keeps the buffer size and the send cursor inside the packet |
| MrfskSourceBlock.Produce | lib/mrfsk_source_impl.cc:100-168 | a call writes at most its room, returns -1 or the number of octets written |
| MrfskSourceBlock.ProduceKeepsInv | lib/mrfsk_source_impl.cc:100-168 | a call of `work` keeps the invariant |
| MrfskSourceBlock.ProduceEmit | lib/mrfsk_source_impl.cc:108-164 | an item that writes an octet puts it in front of the rest of the call's output and adds one to the count |
| MrfskSourceBlock.ProduceNone | lib/mrfsk_source_impl.cc:108 | no room, no item, nothing changes |
| MrfskSourceBlock.ProduceEnd | lib/mrfsk_source_impl.cc:149-158 | `return sent` after the last packet and `return -1` once done end the call at once |
| MrfskSourceBlock.ProduceJoin | lib/mrfsk_source_impl.cc:100-168 | room for m+n items is room for m then for n, when the first m are all written |
| MrfskSourceBlock.Resume | lib/mrfsk_source_impl.cc:108-164 | a resumed call's output starts with the octets already written |
| MrfskSourceBlock.ResumeItem | lib/mrfsk_source_impl.cc:108-164 | one item moves its octet to the output, or ends the call with the output so far |
| MrfskSourceBlock.StartupFill | lib/mrfsk_source_impl.cc:116-121 | d start-up items write d octets 0xFF, then the first packet is due |
| MrfskSourceBlock.KeystreamRun | lib/mrfsk_source_impl.cc:159-161 | in the PN9-forever state every item is the next keystream octet |
| MrfskSourceBlock.Pn9Forever | lib/mrfsk_source_impl.cc:110-115 | with the PN9-forever payload the output is the PN9 keystream from the seed, the amplifier switched on once at the first item, and no packet built |
| MrfskSourceBlock.SendRest | lib/mrfsk_source_impl.cc:130-134 | from the cursor on, the rest of the packet goes out one octet per item, then the pad is due |
| MrfskSourceBlock.DelayRun | lib/mrfsk_source_impl.cc:147-156 | the gap writes zeros until the countdown reaches zero (one item if not positive); then the next packet is due or, after the last, `work` returns without counting the final item |
| MrfskSourceBlock.PadThenGap | lib/mrfsk_source_impl.cc:135-146 | the pad octet, then a zero tagged "amplifier off" that starts the countdown |
| MrfskSourceBlock.PacketOut | lib/mrfsk_source_impl.cc:123-134 | the item that builds the packet sends its first octet tagged "amplifier on", and the rest follows |
| MrfskSourceBlock.GapOut | lib/mrfsk_source_impl.cc:135-156 | after the packet: pad, the tagged zero, then the gap of `delay_total` zeros (at least one) |
| MrfskSourceBlock.GapJoin | lib/mrfsk_source_impl.cc:135-156 | the two zeros after the packet and the gap are zeros all through |
| MrfskSourceBlock.PacketCycle | lib/mrfsk_source_impl.cc:123-156 | one packet cycle: the packet, a zero pad, a zero tagged "off", the gap; the tags at the first packet octet and after the pad; after the last packet the final zero is not counted and the block is done |
| MrfskSourceBlock.StaysDone | lib/mrfsk_source_impl.cc:157-158 | once done, every call returns -1 at once and changes nothing |
| MrfskSourceBlock.AirContents | lib/mrfsk_source_impl.cc:222-425 | uncoded, the packet is the header then exactly the frame the deframer parses; coded, the header then the coded frame, whole when it fits the buffer |
| MrfskSourceBlock.FrameIsTx | lib/mrfsk_source_impl.cc:244-306 | the frame the block builds is the one TxFrame describes for its constructor arguments |
| MrfskSourceBlock.AirShape | lib/mrfsk_source_impl.cc:233-424 | the packet is the header, then the frame as it is, or coded (cut at the end of the buffer) |
| MrfskSourceImpl.SourceBlock.constructor | lib/mrfsk_source_impl.cc:51-91 | the settings as given, `psdu_size` clamped, 50 start-up octets due, `pkt_countdown` packets to send |
| MrfskSourceImpl.SourceBlock.PaEnable | lib/mrfsk_source_impl.cc:170-177 | one `pa_ramp` tag at absolute position `nitems_written` + `sent`, 1 for on and 0 for off |
| MrfskSourceImpl.SourceBlock.EncodeBit | lib/mrfsk_source_impl.cc:180-220 | the coder after the call is NextCoder of the old one; the result is 0 or -1, -1 exactly when an octet closed at the end of `rf_buf` |
| MrfskSourceImpl.SourceBlock.PutBit | lib/mrfsk_source_impl.cc:193-204 | one code bit written under `rf_bp` as PutCodeBit says |
| MrfskSourceImpl.SourceBlock.Work | lib/mrfsk_source_impl.cc:100-168 | the new fields, the octets written and the value returned are those Produce gives |
| MrfskSourceImpl.SourceBlock.ServeItem | lib/mrfsk_source_impl.cc:108-164 | one pass of the loop: what is left of the call after the item is what was left before it, less the item |
| MrfskSourceImpl.SourceBlock.Deliver | lib/mrfsk_source_impl.cc:108-164 | the item's octet goes to `out[i]`, the octets before it untouched |
| MrfskSourceImpl.SourceBlock.WorkItem | lib/mrfsk_source_impl.cc:109-162 | one item changes the fields and emits as Step says |
| MrfskSourceImpl.SourceBlock.SendItem | lib/mrfsk_source_impl.cc:130-134 | the SEND_PACKET item, as Step says |
| MrfskSourceImpl.SourceBlock.Pn9Item | lib/mrfsk_source_impl.cc:159-161 | the PN9_LFSR item, as Step says |
| MrfskSourceImpl.SourceBlock.StartupItem | lib/mrfsk_source_impl.cc:110-122 | the INIT_DELAY item, as Step says |
| MrfskSourceImpl.SourceBlock.PacketItem | lib/mrfsk_source_impl.cc:123-129 | the GENERATE_PACKET item, as Step says |
| MrfskSourceImpl.SourceBlock.GapItem | lib/mrfsk_source_impl.cc:135-156 | the PAD, DELAY_START and DELAY items, as Step says |
| MrfskSourceImpl.SourceBlock.WriteHeader | lib/mrfsk_source_impl.cc:234-242 | `rf_buf` starts with the preamble and SFD, the rest unchanged, `rf_buf_len` just after them |
| MrfskSourceImpl.SourceBlock.WritePreamble | lib/mrfsk_source_impl.cc:234-235 | `rf_buf` starts with `preamble_bytes` octets 0x55, the rest unchanged |
| MrfskSourceImpl.SourceBlock.WritePayload | lib/mrfsk_source_impl.cc:257-276 | after the PHR, the payload of the chosen type (none for an unknown type); the PN9 register moved only for the PN9 payload |
| MrfskSourceImpl.SourceBlock.Pn9Payload | lib/mrfsk_source_impl.cc:264-268 | `count` keystream octets from the seed after the PHR |
| MrfskSourceImpl.SourceBlock.IncrPayloadFill | lib/mrfsk_source_impl.cc:269-274 | `count` octets of the wrapping counter, bit-reversed, after the PHR |
| MrfskSourceImpl.SourceBlock.AppendCrc16 | lib/mrfsk_source_impl.cc:279-283 | the CRC-16 over the payload appended high octet first, the octets before untouched |
| MrfskSourceImpl.SourceBlock.AppendCrc32 | lib/mrfsk_source_impl.cc:284-298 | the complemented, padded CRC-32 over the payload appended big-endian |
| MrfskSourceImpl.SourceBlock.RunCrc32 | lib/mrfsk_source_impl.cc:285-293 | the register is the transmitter's FCS register over the payload |
| MrfskSourceImpl.SourceBlock.PadCrc32 | lib/mrfsk_source_impl.cc:288-292 | the padding loop runs the CRC-32 over the zero octets Crc32PadLength counts |
| MrfskSourceImpl.SourceBlock.WhitenPsdu | lib/mrfsk_source_impl.cc:300-304 | the PSDU replaced by its whitening, the PHR untouched |
| MrfskSourceImpl.SourceBlock.CopyFrame | lib/mrfsk_source_impl.cc:420-424 | the frame copied into `rf_buf` at `rf_buf_len`, which moves past it, the rest unchanged |
| MrfskSourceImpl.SourceBlock.EncodeFrame | lib/mrfsk_source_impl.cc:308-419 | the coded branch leaves `rf_buf` and the registers holding what FecAir describes, also when `encode_bit` fails |
| MrfskSourceImpl.SourceBlock.CloseFrame | lib/mrfsk_source_impl.cc:419 | the last interleave leaves what FecAir describes |
| MrfskSourceImpl.SourceBlock.EncodeOctets | lib/mrfsk_source_impl.cc:316-329 | all frame octets coded keeps the invariant; a failure leaves what FecAir says |
| MrfskSourceImpl.SourceBlock.EncodeOctet | lib/mrfsk_source_impl.cc:317-328 | one frame octet coded MSB first, eight bits further on |
| MrfskSourceImpl.SourceBlock.EncodeTail | lib/mrfsk_source_impl.cc:331-418 | tail and pad coded; a failure leaves what FecAir says |
| MrfskSourceImpl.SourceBlock.FrameBit | lib/mrfsk_source_impl.cc:319-327 | one frame bit coded keeps the invariant, or leaves what FecAir says |
| MrfskSourceImpl.SourceBlock.TailBit | lib/mrfsk_source_impl.cc:331-418 | one tail or pad bit coded keeps the invariant, or leaves what FecAir says |
| MrfskSourceImpl.SourceBlock.CodeDataBit | lib/mrfsk_source_impl.cc:319-327 | `encode_bit`, then at 32 code bits the interleave of the last four octets and the count restarted |
| MrfskSourceImpl.SourceBlock.InterleaveLast | lib/mrfsk_source_impl.cc:326 | the four octets last written are interleaved |
| MrfskSourceImpl.SourceBlock.InterleaveRf | lib/mrfsk_source_impl.cc:326 | `interleave(&rf_buf[at])` replaces those four octets by their block |
| MrfskSourceImpl.SourceBlock.Generate | lib/mrfsk_source_impl.cc:222-425 | the fields after `generate_packet` are those Load gives for the packet Build describes |
| MrfskSourceImpl.SourceBlock.LayPacket | lib/mrfsk_source_impl.cc:233-424 | `rf_buf` is the packet laid over the old buffer, `rf_buf_len` its length; each register is set only where the settings use it |
| MrfskSourceImpl.SourceBlock.PacketFrame | lib/mrfsk_source_impl.cc:244-306 | the frame built is the recorded packet's frame, with its PHR and registers |
| MrfskSourceImpl.SourceBlock.PacketParts | lib/mrfsk_source_impl.cc:222-425 | the recorded packet's parts are the ones Build describes |
| MrfskSourceImpl.SourceBlock.LayCoded | lib/mrfsk_source_impl.cc:308-419 | coded, `rf_buf` after the header is the packet Air describes, and the registers end as the packet says |
| MrfskSourceImpl.SourceBlock.LayUncoded | lib/mrfsk_source_impl.cc:420-424 | uncoded, the frame is copied after the header: the packet Air describes |
| MrfskSourceImpl.SourceBlock.BuildFrame | lib/mrfsk_source_impl.cc:244-306 | `phr_psdu_buf` holds FrameOf: PHR, payload, FCS, whitened if DW; the PHR word and the registers as the settings say |
| MrfskSourceImpl.SourceBlock.PhrAndPayload | lib/mrfsk_source_impl.cc:244-276 | the PHR word and its octets, then the payload |
| MrfskSourceImpl.SourceBlock.AppendFcs | lib/mrfsk_source_impl.cc:279-298 | the FCS of the chosen type appended after the payload, and its register set |
| FramerSinkMrfsk.Step | lib/framer_sink_mrfsk_impl.cc:71-167 | one item keeps the invariant (buffer size, counts inside PHR and frame) |
| FramerSinkMrfsk.HeaderBit | lib/framer_sink_mrfsk_impl.cc:90-112 | one PHR bit keeps the invariant |
| FramerSinkMrfsk.PayloadBit | lib/framer_sink_mrfsk_impl.cc:113-165 | one PSDU bit keeps the invariant |
| FramerSinkMrfsk.OctetDone | lib/framer_sink_mrfsk_impl.cc:116-162 | a completed octet keeps the invariant |
| FramerSinkMrfsk.Store | lib/framer_sink_mrfsk_impl.cc:117-126 | a completed octet is counted, the bit index restarts, state, PHR and queue unchanged |
| FramerSinkMrfsk.Deliver | lib/framer_sink_mrfsk_impl.cc:152-156 | exactly one type-0 record is queued with the PHR and the stored octets, and the search restarts |
| FramerSinkMrfsk.Run | lib/framer_sink_mrfsk_impl.cc:61-171 | any sequence of items keeps the invariant |
| FramerSinkMrfsk.RunAppend | lib/framer_sink_mrfsk_impl.cc:61-171 | running a concatenation is running each part in turn, so calls of `work` compose |
| FramerSinkMrfsk.RunFromJoin | lib/framer_sink_mrfsk_impl.cc:61-171 | running two consecutive stretches of one input is running both at once |
| FramerSinkMrfsk.SearchSkipsUnflagged | lib/framer_sink_mrfsk_impl.cc:73-89 | SYNC_SEARCH passes over unflagged items without changing anything |
| FramerSinkMrfsk.SearchFindsFlag | lib/framer_sink_mrfsk_impl.cc:80-85 | a flagged item starts the PHR with its data bit, count 1 |
| FramerSinkMrfsk.OverrunUnreachable | lib/framer_sink_mrfsk_impl.cc:158-162 | the overrun branch is never taken: the length check fires before the buffer fills |
| FramerSinkMrfsk.ShiftIn16Octet | lib/framer_sink_mrfsk_impl.cc:92 | eight items of an octet shift that octet into the PHR register |
| FramerSinkMrfsk.ShiftIn8Octet | lib/framer_sink_mrfsk_impl.cc:115 | eight items of an octet leave exactly that octet in `d_packet_byte` |
| FramerSinkMrfsk.HeaderItems | lib/framer_sink_mrfsk_impl.cc:91-93 | header items short of the sixteenth only shift and count |
| FramerSinkMrfsk.OctetItemsPartial | lib/framer_sink_mrfsk_impl.cc:114-116 | PSDU items short of an octet only shift and count |
| FramerSinkMrfsk.PhrBits | lib/framer_sink_mrfsk_impl.cc:92 | the sixteen bits of a header, high octet first, shift back into that word |
| FramerSinkMrfsk.HeaderFromFlag | lib/framer_sink_mrfsk_impl.cc:73-112 | a flagged item and fifteen more read the PHR and seed the chosen CRC and the whitening register |
| FramerSinkMrfsk.ReceivePhr | lib/framer_sink_mrfsk_impl.cc:73-112 | the correlator items of a header word read exactly that word |
| FramerSinkMrfsk.StartReceiving | lib/framer_sink_mrfsk_impl.cc:96-112 | once the PHR is read, the deframer is at octet 0 of the PSDU with the registers seeded and the queue as before |
| FramerSinkMrfsk.Dewhitened | lib/framer_sink_mrfsk_impl.cc:117-118 | the stored octets are as many as were received, de-whitened when DW is set |
| FramerSinkMrfsk.OctetsRead | lib/framer_sink_mrfsk_impl.cc:125-127 | the octets read before delivery: `frame_length`, or 1 when it is 0 |
| FramerSinkMrfsk.OctetArrives | lib/framer_sink_mrfsk_impl.cc:114-116 | eight items of an octet complete that octet |
| FramerSinkMrfsk.StepCompletesOctet | lib/framer_sink_mrfsk_impl.cc:115-116 | the eighth bit completes the octet with that bit shifted in |
| FramerSinkMrfsk.StepShiftsBit | lib/framer_sink_mrfsk_impl.cc:115-116 | any other PSDU bit is only shifted in and counted |
| FramerSinkMrfsk.DewhitenedAt | lib/framer_sink_mrfsk_impl.cc:117-118 | stored octet k is the received one XORed with keystream octet k |
| FramerSinkMrfsk.StoreProgress | lib/framer_sink_mrfsk_impl.cc:117-126 | storing octet k keeps it de-whitened and run through the CRC that should see it |
| FramerSinkMrfsk.ReceiveOctet | lib/framer_sink_mrfsk_impl.cc:113-126 | an octet that does not end the frame is stored de-whitened and run through the CRC |
| FramerSinkMrfsk.ReceiveLastOctet | lib/framer_sink_mrfsk_impl.cc:127-157 | the last octet delivers the frame with the CRC verdict on all stored octets |
| FramerSinkMrfsk.FrameDelivered | lib/framer_sink_mrfsk_impl.cc:127-157 | delivery queues the stored octets with the CRC verdict on them |
| FramerSinkMrfsk.DeliverRecord | lib/framer_sink_mrfsk_impl.cc:152-156 | delivery queues the header, the verdict and the stored octets |
| FramerSinkMrfsk.Crc32Final | lib/framer_sink_mrfsk_impl.cc:134-151 | at the end of a CRC-32 frame the register compared is the transmitter's register over the payload |
| FramerSinkMrfsk.ReceiveOctets | lib/framer_sink_mrfsk_impl.cc:113-165 | the octets from the k-th on are delivered as one frame |
| FramerSinkMrfsk.ReceiveFrame | lib/framer_sink_mrfsk_impl.cc:61-171 | from SYNC_SEARCH, a PHR and its octets queue exactly one type-0 record with that PHR, the de-whitened octets and the CRC verdict, and the search restarts |
| FramerSinkMrfsk.LinkDeliversFrame | lib/framer_sink_mrfsk_impl.cc:61-171 | the bits of the frame the transmitter builds are delivered as one record with the transmitter's header, payload and FCS, the CRC accepted |
| FramerSinkMrfsk.TransmittedPsdu | lib/mrfsk_source_impl.cc:244-306 | the transmitted frame is its header then a PSDU of exactly the length the receiver reads |
| FramerSinkMrfsk.ShortFrameReadsBeforeBuffer | lib/framer_sink_mrfsk_impl.cc:143-146 | as written, PHR 0x0003 with CRC-32 takes three octets to the check, which reads index -1 |
| FramerSinkMrfsk.FramerSink.constructor | lib/framer_sink_mrfsk_impl.cc:45-52 | the deframer starts in SYNC_SEARCH with an empty queue |
| FramerSinkMrfsk.FramerSink.Work | lib/framer_sink_mrfsk_impl.cc:61-171 | every item is consumed, `noutput_items` returned, the fields as Run says |
| FramerSinkMrfsk.FramerSink.SearchSync | lib/framer_sink_mrfsk_impl.cc:73-89 | the SYNC_SEARCH loop consumes items as Run says up to the flagged one or the end |
| FramerSinkMrfsk.FramerSink.SyncItem | lib/framer_sink_mrfsk_impl.cc:75-87 | one SYNC_SEARCH item, as Step says |
| FramerSinkMrfsk.FramerSink.ReadHeader | lib/framer_sink_mrfsk_impl.cc:90-112 | the HAVE_SYNC loop, as Run says |
| FramerSinkMrfsk.FramerSink.HeaderItem | lib/framer_sink_mrfsk_impl.cc:92-110 | one PHR bit, as Step says |
| FramerSinkMrfsk.FramerSink.StartPsdu | lib/framer_sink_mrfsk_impl.cc:96-108 | the PHR's FCS bit seeds its CRC only, DW seeds the whitening register, and the PSDU counters restart |
| FramerSinkMrfsk.FramerSink.ReadPsdu | lib/framer_sink_mrfsk_impl.cc:113-165 | the HAVE_HEADER loop, as Run says |
| FramerSinkMrfsk.FramerSink.PsduItem | lib/framer_sink_mrfsk_impl.cc:115-163 | one PSDU bit, as Step says |
| FramerSinkMrfsk.FramerSink.ShiftBit | lib/framer_sink_mrfsk_impl.cc:115 | the item's data bit shifted into the octet register |
| FramerSinkMrfsk.FramerSink.OctetComplete | lib/framer_sink_mrfsk_impl.cc:116-162 | a completed octet, as OctetDone says |
| FramerSinkMrfsk.FramerSink.StoreOctet | lib/framer_sink_mrfsk_impl.cc:117-126 | the bookkeeping of a completed octet, as Store says |
| FramerSinkMrfsk.FramerSink.DeliverFrame | lib/framer_sink_mrfsk_impl.cc:128-156 | the verdict, the record queued and back to search, as Deliver says |
| FramerSinkMrfsk.FramerSink.Dewhiten | lib/framer_sink_mrfsk_impl.cc:117-118 | the octet XORed with the next keystream octet when DW is set, otherwise unchanged |
| FramerSinkMrfsk.FramerSink.UpdateCrc | lib/framer_sink_mrfsk_impl.cc:120-123 | CRC-16 over every octet, CRC-32 only below `frame_length` - 4 |
| FramerSinkMrfsk.FramerSink.PutOctet | lib/framer_sink_mrfsk_impl.cc:125-126 | the octet stored at the count, the count up by one, the bit index restarted |
| FramerSinkMrfsk.FramerSink.CheckCrc32 | lib/framer_sink_mrfsk_impl.cc:134-151 | the register and verdict are those of the guarded Crc32Verdict |
| FramerSinkMrfsk.FramerSink.PadCrc32 | lib/framer_sink_mrfsk_impl.cc:135-141 | the register run over zero octets up to eight in all |
| FramerSinkNrnsc.Step | lib/framer_sink_mrfsk_nrnsc_impl.cc:66-170 | one item keeps the invariant; what a coded frame's items decode to is stated by FecReception.CodedSymbol and FecFrame.ReceiveCodedFrame |
| FramerSinkNrnsc.Sync | lib/framer_sink_mrfsk_nrnsc_impl.cc:75-85 | a flagged item starts the first block with the buffer index 0 and no end set, queue unchanged |
| FramerSinkNrnsc.RawBit | lib/framer_sink_mrfsk_nrnsc_impl.cc:92-93 | one channel bit keeps the invariant |
| FramerSinkNrnsc.BlockEnd | lib/framer_sink_mrfsk_nrnsc_impl.cc:93-96 | the 32nd bit of a block keeps the invariant |
| FramerSinkNrnsc.BlockStep | lib/framer_sink_mrfsk_nrnsc_impl.cc:97-165 | a de-interleaved block keeps the invariant and the bit count; its decoded content is stated by FecFrame.BlockFrom |
| FramerSinkNrnsc.SymIsField | lib/framer_sink_mrfsk_nrnsc_impl.cc:98-111 | symbol j of a block is `(rf_buf >> (30 - 2j)) & 3`, as the code reads it |
| FramerSinkNrnsc.DecodeStep | lib/framer_sink_mrfsk_nrnsc_impl.cc:101 | the symbol goes into the decoder, nothing else changes |
| FramerSinkNrnsc.Shift | lib/framer_sink_mrfsk_nrnsc_impl.cc:102 | the counters shift, nothing else changes |
| FramerSinkNrnsc.Push | lib/framer_sink_mrfsk_nrnsc_impl.cc:228-254 | `push_bit` writes one bit, moving the bit position by one, and touches no field of the framing |
| FramerSinkNrnsc.WriteBit | lib/framer_sink_mrfsk_nrnsc_impl.cc:230-236 | only the buffer changes |
| FramerSinkNrnsc.NextMask | lib/framer_sink_mrfsk_nrnsc_impl.cc:238-253 | the mask moves on; after the last bit the index moves to the next octet |
| FramerSinkNrnsc.NextOctet | lib/framer_sink_mrfsk_nrnsc_impl.cc:241-252 | a completed octet moves the index on by one |
| FramerSinkNrnsc.Dewhiten | lib/framer_sink_mrfsk_nrnsc_impl.cc:242-243 | only the buffer and the PN9 register change |
| FramerSinkNrnsc.FeedCrc | lib/framer_sink_mrfsk_nrnsc_impl.cc:245-248 | only the CRC registers change |
| FramerSinkNrnsc.CheckStop | lib/framer_sink_mrfsk_nrnsc_impl.cc:114-161 | after the end check, a frame still being read has its end inside the buffer |
| FramerSinkNrnsc.ReadPhr | lib/framer_sink_mrfsk_nrnsc_impl.cc:115-127 | the PHR is read from the first two octets and the end set at its length plus PHR_LENGTH |
| FramerSinkNrnsc.Deliver | lib/framer_sink_mrfsk_nrnsc_impl.cc:128-159 | exactly one type-1 record is queued with the PHR and the octets past the PHR, and the search restarts; its CRC-32 verdict is FecCrc32Verdict, as written |
| FramerSinkNrnsc.FecVerdictOnPsdu | lib/framer_sink_mrfsk_nrnsc_impl.cc:136-153 | from four PSDU octets on, the CRC-32 verdict as written is the guarded verdict on the PSDU alone |
| FramerSinkNrnsc.FecVerdictOnPrefix | lib/framer_sink_mrfsk_nrnsc_impl.cc:146-149 | the verdict reads no octet at or past the frame's end |
| FramerSinkNrnsc.ShortPsduMatchesPhr | lib/framer_sink_mrfsk_nrnsc_impl.cc:136-150 | as written, a PSDU of two or three octets passes the CRC-32 check when the four octets before its end, PHR octets among them, hold the padded register; the guarded verdict rejects it |
| FramerSinkNrnsc.PushSymbol | lib/framer_sink_mrfsk_nrnsc_impl.cc:111-113 | decode, push, shift: one bit further on, the framing untouched |
| FramerSinkNrnsc.LaterSymbol | lib/framer_sink_mrfsk_nrnsc_impl.cc:110-164 | a symbol of a later block keeps the invariant |
| FramerSinkNrnsc.LaterUpTo | lib/framer_sink_mrfsk_nrnsc_impl.cc:109-165 | the symbols of a later block up to j keep the invariant, and the bit index stays past the PHR while the frame is read; the bits they push are the encoded frame's by FecFrame.BlockFrom |
| FramerSinkNrnsc.LaterUpToHalted | lib/framer_sink_mrfsk_nrnsc_impl.cc:163-164 | a block that delivered its frame takes no more symbols |
| FramerSinkNrnsc.LaterUpToStays | lib/framer_sink_mrfsk_nrnsc_impl.cc:163-164 | after delivery, the rest of the block changes nothing |
| FramerSinkNrnsc.FirstBlockStep | lib/framer_sink_mrfsk_nrnsc_impl.cc:97-108 | the first block leaves exactly one octet's index step and no end set |
| FramerSinkNrnsc.FirstUpTo | lib/framer_sink_mrfsk_nrnsc_impl.cc:104-108 | after symbol j of the first block, j - 3 bits are pushed, no end is set and state, block register and queue are unchanged |
| FramerSinkNrnsc.Seeded | lib/framer_sink_mrfsk_nrnsc_impl.cc:98-99 | only the symbol history changes |
| FramerSinkNrnsc.StepSearch | lib/framer_sink_mrfsk_nrnsc_impl.cc:68-89 | outside a frame an item starts one exactly when it is flagged |
| FramerSinkNrnsc.StepRawBit | lib/framer_sink_mrfsk_nrnsc_impl.cc:90-93 | inside a frame every item is a channel bit |
| FramerSinkNrnsc.PushWrites | lib/framer_sink_mrfsk_nrnsc_impl.cc:228-254 | `push_bit` writes the decided bit at the next bit position and keeps the bits before it |
| FramerSinkNrnsc.BlockSymbols | lib/framer_sink_mrfsk_nrnsc_impl.cc:97-111 | sixteen symbols per block, first on the air first |
| FramerSinkNrnsc.PushSymbolDecodes | lib/framer_sink_mrfsk_nrnsc_impl.cc:104-108 | each symbol keeps the buffer in step with the reference decoder |
| FramerSinkNrnsc.FirstBlockDecodes | lib/framer_sink_mrfsk_nrnsc_impl.cc:97-108 | the first block's thirteen bits are the reference decoder's |
| FramerSinkNrnsc.FirstBlockRecoversBits | lib/framer_sink_mrfsk_nrnsc_impl.cc:97-108 | error-free, the first block writes the first thirteen source bits |
| FramerSinkNrnsc.EmptyFrameReadsBeforeBuffer | lib/framer_sink_mrfsk_nrnsc_impl.cc:146-149 | as written, PHR 0x0000 delivers an empty record and the check reads buffer positions 1, 0, -1, -2 |
| FramerSinkNrnsc.Run | lib/framer_sink_mrfsk_nrnsc_impl.cc:58-174 | any sequence of items keeps the invariant |
| FramerSinkNrnsc.RunFromJoin | lib/framer_sink_mrfsk_nrnsc_impl.cc:58-174 | running two consecutive stretches is running both at once, so calls of `work` compose |
| FramerSinkNrnsc.FecFramerSink.constructor | lib/framer_sink_mrfsk_nrnsc_impl.cc:42-49 | the deframer starts in SYNC_SEARCH with an empty queue |
| FramerSinkNrnsc.FecFramerSink.Work | lib/framer_sink_mrfsk_nrnsc_impl.cc:58-174 | every item is consumed, `noutput_items` returned, the fields as Run says |
| FramerSinkNrnsc.FecFramerSink.SearchSync | lib/framer_sink_mrfsk_nrnsc_impl.cc:68-89 | the SYNC_SEARCH loop, as Run says |
| FramerSinkNrnsc.FecFramerSink.SyncItem | lib/framer_sink_mrfsk_nrnsc_impl.cc:70-87 | one SYNC_SEARCH item, as Step says |
| FramerSinkNrnsc.FecFramerSink.ClearWeights | lib/framer_sink_mrfsk_nrnsc_impl.cc:80-81 | the counters cleared |
| FramerSinkNrnsc.FecFramerSink.ReadBits | lib/framer_sink_mrfsk_nrnsc_impl.cc:90-168 | the HAVE_SYNC loop, as Run says |
| FramerSinkNrnsc.FecFramerSink.RawItem | lib/framer_sink_mrfsk_nrnsc_impl.cc:92-166 | one channel bit, as Step says |
| FramerSinkNrnsc.FecFramerSink.EndBit | lib/framer_sink_mrfsk_nrnsc_impl.cc:93-165 | the 32nd bit, as BlockEnd says |
| FramerSinkNrnsc.FecFramerSink.ShiftIn | lib/framer_sink_mrfsk_nrnsc_impl.cc:92-93 | the bit shifted into `rf_buf` and counted |
| FramerSinkNrnsc.FecFramerSink.StartBlock | lib/framer_sink_mrfsk_nrnsc_impl.cc:94-96 | the count restarts and the word is de-interleaved |
| FramerSinkNrnsc.FecFramerSink.ProcessBlock | lib/framer_sink_mrfsk_nrnsc_impl.cc:97-165 | a block, as BlockStep says |
| FramerSinkNrnsc.FecFramerSink.FirstBlock | lib/framer_sink_mrfsk_nrnsc_impl.cc:97-108 | the first block, as FirstBlockStep says |
| FramerSinkNrnsc.FecFramerSink.FirstSymbolsLoop | lib/framer_sink_mrfsk_nrnsc_impl.cc:104-108 | symbols 3 to 15 of the first block, as FirstUpTo says |
| FramerSinkNrnsc.FecFramerSink.FirstBlockSymbol | lib/framer_sink_mrfsk_nrnsc_impl.cc:104-108 | one pass of the first block's loop moves the fields from FirstUpTo at j to FirstUpTo at j + 1 |
| FramerSinkNrnsc.FecFramerSink.SeedHistory | lib/framer_sink_mrfsk_nrnsc_impl.cc:98-99 | the history seeded, as Seeded says |
| FramerSinkNrnsc.FecFramerSink.PushSymbolStep | lib/framer_sink_mrfsk_nrnsc_impl.cc:105-107 | decode, push, shift, as PushSymbol says |
| FramerSinkNrnsc.FecFramerSink.LaterBlock | lib/framer_sink_mrfsk_nrnsc_impl.cc:109-165 | a later block, as LaterUpTo says, whose decoded bits FecFrame.BlockFrom states |
| FramerSinkNrnsc.FecFramerSink.LaterBlockSymbol | lib/framer_sink_mrfsk_nrnsc_impl.cc:109-165 | one pass of a later block's loop moves the fields from LaterUpTo at j to LaterUpTo at j + 1 |
| FramerSinkNrnsc.FecFramerSink.LaterSymbolStep | lib/framer_sink_mrfsk_nrnsc_impl.cc:111-161 | one symbol of a later block, as LaterSymbol says |
| FramerSinkNrnsc.FecFramerSink.Decode | lib/framer_sink_mrfsk_nrnsc_impl.cc:176-216 | the symbol into the decoder, nothing else changes |
| FramerSinkNrnsc.FecFramerSink.DecodeSymbol | lib/framer_sink_mrfsk_nrnsc_impl.cc:176-216 | the decoder after `decode_ui` is DecodeUi of the old one |
| FramerSinkNrnsc.FecFramerSink.ShiftCounters | lib/framer_sink_mrfsk_nrnsc_impl.cc:218-225 | the counters after `shift_weights` are ShiftWeights of the old ones |
| FramerSinkNrnsc.FecFramerSink.PushBit | lib/framer_sink_mrfsk_nrnsc_impl.cc:228-254 | `push_bit`, as Push says |
| FramerSinkNrnsc.FecFramerSink.PutBit | lib/framer_sink_mrfsk_nrnsc_impl.cc:230-236 | the decided bit under the mask |
| FramerSinkNrnsc.FecFramerSink.MoveMask | lib/framer_sink_mrfsk_nrnsc_impl.cc:238-253 | the mask moved, a completed octet absorbed and counted |
| FramerSinkNrnsc.FecFramerSink.DewhitenOctet | lib/framer_sink_mrfsk_nrnsc_impl.cc:242-243 | the completed octet de-whitened if DW |
| FramerSinkNrnsc.FecFramerSink.UpdateCrc | lib/framer_sink_mrfsk_nrnsc_impl.cc:245-248 | the completed octet into the CRC the PHR selects |
| FramerSinkNrnsc.FecFramerSink.StopCheck | lib/framer_sink_mrfsk_nrnsc_impl.cc:114-161 | the end check, as CheckStop says |
| FramerSinkNrnsc.FecFramerSink.ReadHeader | lib/framer_sink_mrfsk_nrnsc_impl.cc:115-127 | the PHR read and the end set, as ReadPhr says |
| FramerSinkNrnsc.FecFramerSink.DeliverFrame | lib/framer_sink_mrfsk_nrnsc_impl.cc:128-160 | the verdict as written, the record queued and back to search, as Deliver says |
| FramerSinkNrnsc.FecFramerSink.CheckCrc32 | lib/framer_sink_mrfsk_nrnsc_impl.cc:136-153 | the register and verdict are those of FecCrc32Verdict: the four octets before the end compared with the padded, complemented register, a failed check only where the read would fall before the buffer |
| FramerSinkNrnsc.FecFramerSink.PadCrc32 | lib/framer_sink_mrfsk_nrnsc_impl.cc:137-145 | the register run over zero octets until PSDU and padding make eight |
| FecReception.ShiftIn32Word | lib/framer_sink_mrfsk_nrnsc_impl.cc:92-93 | the 32 items of four octets, first bit first, shift exactly their big-endian word into `rf_buf` |
| FecReception.SearchSkips | lib/framer_sink_mrfsk_nrnsc_impl.cc:68-89 | in SYNC_SEARCH, items without the sync flag change nothing |
| FecReception.BitsShiftIn | lib/framer_sink_mrfsk_nrnsc_impl.cc:92-93 | short of a block's end, items only shift into `rf_buf` and are counted |
| FecReception.BitsEndBlock | lib/framer_sink_mrfsk_nrnsc_impl.cc:92-96 | the item that completes 32 bits restarts the count and processes `interleave_u32` of the word as a block |
| FecReception.LaterBlockItems | lib/framer_sink_mrfsk_nrnsc_impl.cc:92-165 | after the first block, the items of four octets are one later block over `interleave_u32` of their word |
| FecReception.FirstBlockItems | lib/framer_sink_mrfsk_nrnsc_impl.cc:75-108 | the flagged item and the rest of four octets start a frame and process the first block over `interleave_u32` of their word |
| FecReception.PushDecodes | lib/framer_sink_mrfsk_nrnsc_impl.cc:110-113 | on the encoded source bits, the decoder stays the reference decoder and the bit each symbol decides is the source bit at the bit position |
| FecReception.ReadPhrCoded | lib/framer_sink_mrfsk_nrnsc_impl.cc:114-127 | once both PHR octets are decoded, the PHR read is the one sent and the end is set after its PSDU |
| FecReception.DeliverCoded | lib/framer_sink_mrfsk_nrnsc_impl.cc:128-159 | at the end, the record queued holds the PHR sent, the de-whitened PSDU and the deframer's verdict on it, and the search restarts |
| FecReception.SymbolBeforePhr | lib/framer_sink_mrfsk_nrnsc_impl.cc:110-113 | a symbol inside a PHR octet keeps the reception on course |
| FecReception.SymbolInPsdu | lib/framer_sink_mrfsk_nrnsc_impl.cc:110-113 | a symbol inside a PSDU octet keeps the reception on course |
| FecReception.SymbolEndsPhr | lib/framer_sink_mrfsk_nrnsc_impl.cc:110-127 | the symbol that completes the PHR's second octet reads the PHR sent and keeps the reception on course |
| FecReception.SymbolEndsOctet | lib/framer_sink_mrfsk_nrnsc_impl.cc:110-160 | the symbol that completes a PSDU octet stores it de-whitened and keeps the reception on course, delivering the record when the octet is the last |
| FecReception.CodedSymbol | lib/framer_sink_mrfsk_nrnsc_impl.cc:109-165 | every symbol of the encoded frame up to its delivery keeps the reception on course, one symbol further |
| FecFrame.BlockFrom | lib/framer_sink_mrfsk_nrnsc_impl.cc:109-165 | a later block holding the next sixteen encoded symbols keeps the reception on course to the block's end |
| FecFrame.LaterBlock | lib/framer_sink_mrfsk_nrnsc_impl.cc:92-165 | the 32 items of a later block on the air keep the reception on course, sixteen symbols further |
| FecFrame.LaterBlocks | lib/framer_sink_mrfsk_nrnsc_impl.cc:58-174 | all remaining blocks on the air keep the reception on course to the frame's last symbol |
| FecFrame.HandedSkips | lib/framer_sink_mrfsk_nrnsc_impl.cc:68-89 | once the record is queued, the rest of the air leaves the delivered state as it is |
| FecFrame.FirstBlockBits | lib/framer_sink_mrfsk_nrnsc_impl.cc:97-108 | the first block leaves the reference decoder after sixteen symbols, the first thirteen source bits in the buffer and the first PHR octet stored |
| FecFrame.FirstBlockCoded | lib/framer_sink_mrfsk_nrnsc_impl.cc:97-108 | after the first block the reception is on course, short of delivery |
| FecFrame.FirstBlock | lib/framer_sink_mrfsk_nrnsc_impl.cc:75-108 | the flagged first four octets on the air put the reception on course after sixteen symbols |
| FecFrame.ReceiveCodedFrame | lib/framer_sink_mrfsk_nrnsc_impl.cc:58-174 | from SYNC_SEARCH, the encoded frame on the air, long enough to reach its end, queues exactly one type-1 record with the PHR sent, the de-whitened PSDU and the CRC verdict on it, and the search restarts |
| FecLink.FecCrcOkAgrees | lib/framer_sink_mrfsk_nrnsc_impl.cc:128-153 | for a CRC-16 frame, or a PSDU of at least four octets, the FEC deframer's verdict is the one the uncoded deframer reaches |
| FecLink.FecBitsCarry | lib/mrfsk_source_impl.cc:316-319 | the bits the encoder takes are the frame's octets, most significant bit first |
| FecLink.CodedLinkDeliversFrame | lib/framer_sink_mrfsk_nrnsc_impl.cc:58-174 | air that holds the transmitter's encoded frame block by block is delivered as one type-1 record with the transmitter's header, payload and FCS, the CRC accepted |
| FecLink.PackedBlock | lib/mrfsk_source_impl.cc:316-327 | each four octets the encoder packs hold sixteen symbols in the order the receiver reads them |
| FecLink.AirBlockAt | lib/mrfsk_source_impl.cc:323-327 | with paired interleavers, each four octets on the air de-interleave to the next sixteen encoded symbols |
| FecLink.AirFrom | lib/mrfsk_source_impl.cc:307-419 | with paired interleavers, the air from any block on carries the encoded symbols from that block on |
| FecLink.FecAirOnAir | lib/mrfsk_source_impl.cc:307-419 | the FEC packet's air is the encoded frame block by block, with as many symbols as source bits |
| FecLink.CodedPacketDelivered | lib/mrfsk_source_impl.cc:307-419 | with paired interleavers, the packet the transmitter encodes is delivered by the FEC deframer as one type-1 record with the transmitter's header, payload and FCS, the CRC accepted |
| Preamble.STol | lib/preamble_detector_impl.cc:62-67 | `s_tol` is a quarter symbol (at least one sample) plus one, so at least 2 |
| Preamble.ToleranceAccepts | lib/preamble_detector_impl.cc:201 | a deviation passes `x < s_tol` exactly when it is at most a quarter symbol |
| Preamble.MakeConfig | lib/preamble_detector_impl.cc:56-89 | the configuration holds sps, 2 * sps and `s_tol` |
| Preamble.Swap | lib/preamble_detector_impl.cc:201-224 | up and down exchanged: positions, predecessors, sums and counts |
| Preamble.SwapInvolution | lib/preamble_detector_impl.cc:201-224 | swapping twice gives the window back |
| Preamble.FlipCheck | lib/preamble_detector_impl.cc:195-226 | when both crossings sit one symbol from their predecessors, up and down are exchanged and the window marked flipped, else nothing changes |
| Preamble.AdvanceMid | lib/preamble_detector_impl.cc:228-230 | the ring index moves one slot forward modulo NUM_MIDS |
| Preamble.PeaksTol | lib/preamble_detector_impl.cc:240 | `peaks_tol` is never negative |
| Preamble.ForceZcd | lib/preamble_detector_impl.cc:249-265 | the downward edge forcing leaves counter, ring index and flip alone |
| Preamble.ForceZcu | lib/preamble_detector_impl.cc:267-283 | the upward edge forcing, as written, leaves counter, ring index and flip alone; the forcing itself is stated by UpwardEdgeForced and UpwardEdgeNotForced |
| Preamble.UpwardEdgeForced | lib/preamble_detector_impl.cc:267-273 | an upward crossing at sample 0 after one at the window's end is moved to 2 * sps, its predecessor set to 2 * sps - 1 and flagged, as written and as intended |
| Preamble.UpwardEdgeNotForced | lib/preamble_detector_impl.cc:274-282 | otherwise the flag clears and the crossing stays; after a forced crossing reappearing below 2 the sum restarts with count 1, at the downward crossing as written and at the upward one as intended |
| Preamble.ForceZcuIntended | lib/preamble_detector_impl.cc:267-283 | the same with the sum restarting at the upward crossing; the forcing itself is stated by UpwardEdgeForced and UpwardEdgeNotForced |
| Preamble.Count | lib/preamble_detector_impl.cc:285-327 | the counter stays non-negative and rises by at most one; crossings unchanged |
| Preamble.Accumulate | lib/preamble_detector_impl.cc:329-349 | the accumulation leaves counter, ring index and flip alone |
| Preamble.SamplePoints | lib/preamble_detector_impl.cc:351-422 | the sample points update leaves counter, ring index and flip alone |
| Preamble.Remember | lib/preamble_detector_impl.cc:443-448 | only the predecessors change |
| Preamble.TrackKeepsGood | lib/preamble_detector_impl.cc:162-454 | a window keeps the ring index in range, the counters non-negative and the sample points off 2 * sps, as written and as intended |
| Preamble.MidIndexAdvances | lib/preamble_detector_impl.cc:191-230 | the ring index moves one slot on every window that is not squelched, the same either way |
| Preamble.SquelchedWindowIgnored | lib/preamble_detector_impl.cc:191-193 | an all-zero window changes nothing |
| Preamble.DownwardEdgeForced | lib/preamble_detector_impl.cc:249-255 | a downward crossing at sample 0 after one at the window's end is moved to 2 * sps and flagged |
| Preamble.DownwardEdgeNotForced | lib/preamble_detector_impl.cc:256-264 | otherwise the flag clears and the crossing stays |
| Preamble.CountRules | lib/preamble_detector_impl.cc:285-327 | the counter rises exactly on a window with both tolerances met and both crossings found; a missing crossing lowers it; both tolerances missed reset it; never below 0 |
| Preamble.CountRisesByOne | lib/preamble_detector_impl.cc:302-327 | the counter rises by at most one per window |
| Preamble.SamplePointWrap | lib/preamble_detector_impl.cc:405-420 | a second point that rounds to 2 * sps wraps the pair to (0, sps); a first point alone that does gives (0, the second's rounding), because the second is overwritten after the wrap; otherwise the roundings are kept; the points never rest at 2 * sps |
| Preamble.PredecessorsRemembered | lib/preamble_detector_impl.cc:443-448 | the predecessors take only found crossings, and none after a flip |
| Preamble.ZcuResetTakesDownward | lib/preamble_detector_impl.cc:275-281 | as written, sps 16 with a forced upward crossing reappearing at 1 and a downward one at 9 restarts the upward sum at 9 |
| Preamble.ZcuResetRestartsAtCrossing | lib/preamble_detector_impl.cc:275-281 | as intended, the reset restarts the upward sum at the upward crossing, count 1 |
| Preamble.IntendedDiffersOnlyInReset | lib/preamble_detector_impl.cc:267-283 | the written and intended forcing differ only in the upward sum, and only after such a reset |
| Preamble.PreambleDetector.constructor | lib/preamble_detector_impl.cc:56-89 | counters 0, sample points at one symbol, forced flags clear |
| Preamble.PreambleDetector.Work2ui | lib/preamble_detector_impl.cc:162-454 | the fields after one window are TrackIntended of the old ones |
| Preamble.PreambleDetector.FlipWindow | lib/preamble_detector_impl.cc:195-226 | the flip check, as FlipCheck says |
| Preamble.PreambleDetector.SamplePointsWindow | lib/preamble_detector_impl.cc:351-422 | the sample points, as SamplePoints says |
| Preamble.PreambleDetector.RememberWindow | lib/preamble_detector_impl.cc:443-448 | the predecessors, as Remember says |
| Preamble.PreambleDetector.ForceEdges | lib/preamble_detector_impl.cc:249-283 | both edge forcings, downward first, the upward one as intended |
| Preamble.PreambleDetector.ForceDownward | lib/preamble_detector_impl.cc:249-265 | the downward forcing, as ForceZcd says |
| Preamble.PreambleDetector.ForceUpward | lib/preamble_detector_impl.cc:267-283 | the upward forcing, as ForceZcuIntended says |
| Preamble.PreambleDetector.CountWindow | lib/preamble_detector_impl.cc:285-327 | the counter and the restart of the sums at three, as Count says |
| Preamble.PreambleDetector.AccumulateWindow | lib/preamble_detector_impl.cc:329-349 | the sums, as Accumulate says |

## Left out

- `get_pn9_byte`, `reverse_octet`, `crc_msb_first`, `digital_update_crc32`, `interleave` and `interleave_u32` are declared in lib/utils_mrfsk.h, but their bodies are not part of this model. They are functions without bodies on the C side. Here they are fixed but arbitrary octet and word functions.
- Two properties of those helpers are stated as hypotheses, not proved:
  - `Crc16ZeroResidue`: the CRC-16 over a register's own two octets is 0. `Primitives.Crc16AppendedResidue`, `Frame.FcsAccepted` and `FramerSinkMrfsk.LinkDeliversFrame` take it as a precondition for the CRC-16 case.
  - `InterleavePaired`: the receive permutation undoes the transmit permutation. `FecLink.AirBlockAt`, `FecLink.AirFrom`, `FecLink.FecAirOnAir` and `FecLink.CodedPacketDelivered` take it as a precondition.
- `crc_msb_first(crc, buf, n)` and `digital_update_crc32(crc, buf, n)` are modelled as the one-octet call applied octet by octet from the left (`Primitives.Crc16Over`, `Primitives.Crc32Over`). This is an assumption about bodies that are not part of this model: the transmitter calls them over whole buffers and the deframers one octet at a time, so `Primitives.Crc16OverAppend`, `Frame.FcsAccepted`, `FramerSinkMrfsk.LinkDeliversFrame` and the FEC link lemmas depend on it.
- The scheduler, `msg_queue` and the message objects: a queued record is a value (kind, PHR word, verdict, octets) appended to a sequence field.
- `nitems_written(0)` is a parameter of `work`, and the stream tags are a sequence of (offset, on) pairs.
- The `printf` and `fprintf` diagnostics are not modelled. Neither is `dbg_hist`, a debug history that nothing reads.
- The FEC deframer's `push_bit` prints when the index passes the buffer. The model proves the index stays inside the buffer while a frame is read, so that branch is not modelled.
- The preamble detector's floating-point work is not modelled:
  - `get_mid`, `mid_avg`, the search for extremes and crossings, and `f_offset`;
  - the averaging that turns the crossing sums into `sample_point_a` and `sample_point_b`;
  - `work()`'s copying of samples and its output.

  A window enters the model as integers: the squelch flag, the extremes' positions, the two crossings, and the rounded sample points, which are an input.
- The preamble detector's `-1` return under `P_DEBUG` is not modelled: it is debug-only.
- Integer widths are not modelled, because the bounds are proved instead. `psdu_size`, `rf_buf_len` and the counters are `int` in the model. The model proves they stay in the ranges where the C types (uint16_t, uint8_t) hold them exactly. The 8-bit `payload_incr_octet` wrap and the 11-bit `frame_length` truncation are written out.
- Preamble.PreambleDetector.Work2ui is proved against `TrackIntended`, with the corrected upward reset, not against line 279 as written; the as-written window is the function `Preamble.Track`, and `Preamble.IntendedDiffersOnlyInReset` says where the two differ.
- Preamble.PreambleDetector.ForceEdges and Preamble.PreambleDetector.ForceUpward compute `ForceZcuIntended`, the corrected reset (`zcu_sum = zcu_at`), for the same reason; `Preamble.ForceZcu` is the as-written forcing.
- FramerSinkMrfsk.FramerSink.CheckCrc32 and FramerSinkMrfsk.FramerSink.DeliverFrame compute the guarded verdict `Frame.Crc32Verdict`, which fails a frame of fewer than four octets without reading; as written, the check reads `d_packet` before its start for such a frame, which has no meaning in the model (see Findings).
- MrfskSourceImpl.SourceBlock.constructor requires the clamped `psdu_size` to fit `phr_psdu_buf` (2048 PSDU octets) and the packet to fit `rf_buf`. The code does not check this. Larger settings overflow the C buffers.
- MrfskSourceBlock.Air: when `encode_bit` fails (the "fec abort"), `generate_packet` returns with `rf_buf` full and `rf_buf_len` at its size, and `work` sends that buffer. The model describes this packet but does not say the frame was cut.

## Findings

| source | as written | input that shows it | evidently intended | confidence | as-written member | corrected member |
|---|---|---|---|---|---|---|
| lib/preamble_detector_impl.cc:279 | after a forced upward crossing reappears at sample 0 or 1, `zcu_sum = zcd_at` restarts the upward sum at the downward crossing | sps 16, a forced upward crossing now at sample 1, downward crossing at 9: the upward sum restarts at 9 | `zcu_sum = zcu_at`, the same as the downward branch at lines 257-262 | high (not executed) | Preamble.ZcuResetTakesDownward | Preamble.ZcuResetRestartsAtCrossing |
| lib/framer_sink_mrfsk_impl.cc:143-146 | the CRC-32 check reads `d_packet[cnt-1]` to `d_packet[cnt-4]` with no guard on the frame length | PHR 0x0003 (three octets, CRC-32): after three octets the check reads `d_packet[-1]` | a frame shorter than its four FCS octets fails the check without reading | high (not executed) | FramerSinkMrfsk.ShortFrameReadsBeforeBuffer | Frame.ShortFrameRejected |
| lib/framer_sink_mrfsk_nrnsc_impl.cc:146-149 | the CRC-32 check reads `phr_psdu_buf[idx-4]` to `phr_psdu_buf[idx-1]` with no guard on the PSDU length | PHR 0x0000 (empty PSDU, CRC-32): delivery at index 2 reads positions -2 to 1, two before the buffer and two PHR octets | a PSDU shorter than its FCS fails the check without reading | high (not executed) | FramerSinkNrnsc.EmptyFrameReadsBeforeBuffer | Frame.ShortFrameRejected |
