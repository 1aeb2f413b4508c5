# ble_sniffer in Dafny

This project models the packet path of `ble_sniffer`, a host-side reader for a
Nordic nRF52 Bluetooth LE sniffer attached over a serial line:

- **SLIP-style framing** (module `Slip`).
  - The sniffer's byte stream holds frames opened by `START` (0xAB) and closed by `END` (0xBC).
  - `ESC` (0xCD) followed by the reserved byte plus one stands for that reserved byte.
  - The decoder `Step`/`Run` is a fold over the stream. `GetPacketBytes` is the loop of
    `get_packet_bytes`, proved to compute it.
  - The outgoing side covers `add_bytes_to_slip`, `make_send_bytes`, `make_send_scan_bytes`
    and `make_send_tk_bytes`. `AddBytesToSlip` appends `Escape(b)`, and `EscapeDecodes`
    proves that decoding gives `b` back. The three `make_send_*` encoders are proved equal to
    `Encode` of their command frame and to decode back to exactly that frame.
- **The packet decoder** (`BlePacket::from`).
  - `PacketFormat.PacketOf` gives, field by field, the packet a frame decodes to: the
    sniffer's UART header, the link-layer header, the advertiser and scanner addresses, and
    the advertising data of an ADV_NONCONN_IND.
  - `PacketDecoder.BlePacketFrom` is the byte loop of the code, with the same effect at
    every index, the same `u8` counters and the same AD-structure state machine. It is proved
    to return `PacketOf(bytes)`.
  - Modules `PacketProperties` and `AdProperties` prove what the decoded fields mean.
  - Module `Advertising` holds the structure-by-structure reading of the advertising data
    (`ParseAds`) that the byte loop is proved against.
- **The capture loop** (`analyze_serial_packets`, module `Ingest`).
  - `SlipDecoder` is a class holding the decoder state that persists across serial reads.
    Its `Feed` is proved to give the same frames as decoding the concatenated stream at once.
  - `AnalyzeRead` is the loop body over one receive buffer. It decodes every closed frame
    and forwards only the valid packets. `AnalyzeSerialPackets` chains the reads.
  - `OpenSession` is the two command frames sent when the port opens.

Modelling choices:
- Rust's `u8`/`u16`/`u32`/`i16` are subset types of `int` (`Prelude`). The `|=` of
  disjoint bit ranges is `BitOr`/`Or16`/`Or32`, proved equal to addition. `<< k` is
  multiplication by a power of two. Masks and shifts are `Bits`/`Bit`, defined through
  quotient and remainder.
- `payload.len() as u8` is written as `% 0x100`. `packet_counter & 0xff` and
  `packet_counter >> 8` are `% 0x100` and `/ 0x100`.
- `String::from_utf8` is replaced by the predicate `Advertising.ValidUtf8`, the
  well-formed byte sequences of RFC 3629, section 4.

Points where the model spells out behaviour of the code that is easy to miss:
- **The length area at index 21.** At index 21 the code reads the first byte as the
  payload length and rewinds its index. A zero there leaves the length at 0, so every zero
  byte is skipped in turn. The first nonzero byte becomes the length. The byte after it is
  read again at index 21, but its value is never used: its arrival only triggers the
  SCAN_REQ length check, which tests the stored length.
  The payload starts after that byte. `PacketProperties.ZeroPaddingAbsorbed`,
  `PacketProperties.SkippedByteIgnored` and `PacketProperties.ScanLengthChecked` state
  this.
- **The flags byte.** Byte 7 carries the CRC status in bit 0 and the PHY in bits 4 to 6
  (`PacketProperties.FlagsFields`).
- **Truncated frames.** Nothing checks that a frame is long enough. The empty frame and
  any frame of at most 22 bytes that starts with 6 decode as valid packets
  (`PacketProperties.TruncatedFrameValid`). Beyond that, a frame whose payload is cut short
  is still valid, unless it is a SCAN_REQ whose length is not 12 and whose byte after the
  length has arrived (`PacketProperties.ValidIff`, `PacketProperties.ScanLengthChecked`).
- **The header protocol version.** The packet header's `protocol_version` is never
  written and stays 0 (`PacketProperties.ByteFields`).
- **Two optional headers and two optional records.** The advertising and data headers are
  two independent `Option`s, as in the code. So are the ADV_NONCONN_IND and SCAN_REQ
  records. Their mutual exclusion is proved (`HeadersExclusive`, `RecordsExclusive`)
  rather than built into the type.

## Model

| member | source | states |
|---|---|---|
| Slip.GetPacketBytes | src/ble_sniffer.rs:503-537 | the frame list is exactly the frames the SLIP fold `Run` closes over the whole input, and the read index is the input's length |
| Slip.NoEndNoFrame | src/ble_sniffer.rs:515-519 | bytes without an END close no frame, from any state |
| Slip.FramesAtMostEnds | src/ble_sniffer.rs:511-519 | at most one frame per END byte in the input, from any state |
| Slip.TailDropped | src/ble_sniffer.rs:509-536 | bytes after the last END add no frame: an unterminated tail is dropped |
| Slip.RunAppend | src/ble_sniffer.rs:509-535 | decoding `a + b` is decoding `a`, then `b` from the state `a` left: the state carries over and the frames concatenate |
| Slip.RunSnoc | src/ble_sniffer.rs:509-535 | one more byte changes the state and adds frames exactly as one decoder step does (a single unfolding of `Run`, kept as the named form other proofs use) |
| Slip.IdleBufferEmpty | src/ble_sniffer.rs:511-518 | from a fresh decoder, whenever no frame is open the frame buffer is empty |
| Slip.DiscardUntilStart | src/ble_sniffer.rs:511-514 | outside a frame, bytes other than START are dropped: no frame, state unchanged |
| Slip.EscapedByte | src/ble_sniffer.rs:519-531 | inside a frame, ESC followed by any byte other than END or ESC stores the unescaped byte (0xAC→0xAB, 0xBD→0xBC, 0xCE→0xCD, anything else as is) |
| Slip.EscapeBeforeEnd | src/ble_sniffer.rs:515-521 | ESC then END still closes the frame, and the escape flag stays set into the next frame |
| Slip.StartInsideFrame | src/ble_sniffer.rs:511-533 | a START inside an open frame is stored as data (a single unfolding of `Step`, kept to name this case of the code) |
| Slip.EscapeDecodes | src/ble_sniffer.rs:546-553 | the escaping of any one content byte decodes back to that byte inside a frame |
| Slip.EscapeAllDecodes | src/ble_sniffer.rs:546-553 | the byte-by-byte escaping of any content decodes back to that content, with no frame closed early |
| Slip.EncodeDecodes | src/ble_sniffer.rs:555-569 | START, escaped frame, END decodes from a fresh decoder to exactly that one frame and leaves the decoder fresh |
| Slip.AddBytesToSlip | src/ble_sniffer.rs:546-553 | appends ESC and the byte plus one for START, END or ESC, and the byte itself otherwise |
| Slip.MakeSendBytes | src/ble_sniffer.rs:555-569 | the result is the encoding of the command frame `[6, len mod 256, 1, counter low, counter high, id] + payload`, and it decodes back to that one frame |
| Slip.ScanFlagsBits | src/ble_sniffer.rs:577-586 | the scan flag byte is below 8, with bit 0 set iff scan responses are wanted, bit 1 iff auxiliary packets and bit 2 iff coded PHY |
| Slip.MakeSendScanBytes | src/ble_sniffer.rs:571-589 | the result is exactly the SLIP encoding of the REQ_SCAN_CONT command frame carrying the one flag byte, so it decodes back to that frame |
| Slip.MakeSendTkBytes | src/ble_sniffer.rs:591-594 | the result is exactly the SLIP encoding of the SET_TEMPORARY_KEY command frame whose payload is sixteen copies of the key byte, so it decodes back to that frame |
| Ingest.SlipDecoder.constructor | src/ble_sniffer.rs:397-399 | the decoder starts outside a frame, not escaped, with an empty buffer and no frames |
| Ingest.SlipDecoder.Feed | src/ble_sniffer.rs:434-466 | after a chunk the state is the fold's state over the chunk from the old state, and the closed frames are appended in order |
| Ingest.FeedAll | src/ble_sniffer.rs:397-467 | feeding chunks one after another yields the frames of decoding their concatenation from a fresh decoder |
| Ingest.ChunkedMatchesWhole | src/ble_sniffer.rs:503-537 | end-to-end agreement: the frames from feeding any chunking through the class equal what `get_packet_bytes` returns on the concatenated bytes |
| Ingest.Deliver | src/ble_sniffer.rs:446-449 | a closed frame yields its decoded packet when that packet is valid, and nothing otherwise |
| Ingest.AnalyzeRead | src/ble_sniffer.rs:433-467 | one read of at most 1024 bytes moves the decoder state exactly as the fold does, and sends the valid packets of the frames closed in it, in order |
| Ingest.AnalyzeSerialPackets | src/ble_sniffer.rs:396-467 | over any sequence of reads, the packets sent are the valid decoded packets of the frames in the concatenated stream, whatever the read boundaries |
| Ingest.ForwardedAppend | src/ble_sniffer.rs:443-450 | forwarding two runs of frames is forwarding each in turn |
| Ingest.ValidOnlySound | src/ble_sniffer.rs:447-448 | the filter keeps no more packets than it is given, and every packet it keeps is valid and one of those given |
| Ingest.ValidOnlyComplete | src/ble_sniffer.rs:447-448 | every valid packet given to the filter is kept |
| Ingest.ForwardedFromFrames | src/ble_sniffer.rs:446-448 | no more packets than frames are sent, and each packet sent is valid and the decoding of one of the frames |
| Ingest.ForwardedComplete | src/ble_sniffer.rs:446-448 | the decoding of any frame, when it is valid, is among the packets sent |
| Ingest.ChunkingIrrelevant | src/ble_sniffer.rs:396-467 | the packets sent for `a + b` are those for `a` followed by those for `b` read from the state `a` left |
| Ingest.OpenSession | src/ble_sniffer.rs:408-423 | the first command is exactly the encoding of REQ_SCAN_CONT with counter 0 and all flags clear, the second that of SET_TEMPORARY_KEY with counter 1 and a zero key; each decodes back to its frame |
| Protocol.NewPacket | src/ble_sniffer.rs:156-165 | the starting packet is invalid, with zero version, counter and id, and the new header and link layer |
| Protocol.NewPacketHeader | src/ble_sniffer.rs:344-356 | the starting header has no advertising or data header, CRC not ok, and every number zero |
| Protocol.NewLinkLayer | src/ble_sniffer.rs:360-370 | the starting link layer has no payload record, addresses not public, and every number zero |
| Protocol.NewNonConnInd | src/ble_sniffer.rs:374-383 | the starting ADV_NONCONN_IND record has a zero address, no types and none of the four optional fields |
| Protocol.NewScanReq | src/ble_sniffer.rs:387-391 | the starting SCAN_REQ record has both addresses zero |
| PacketFormat.PacketOf | src/ble_sniffer.rs:167-340 | the closed form of the decoding; its own contract says only a frame starting with the header length 6 (or the empty frame) decodes to a valid packet, and `BlePacketFrom` and the `PacketProperties` lemmas state the rest |
| PacketDecoder.BlePacketFrom | src/ble_sniffer.rs:167-340 | the byte loop returns exactly `PacketOf(bytes)` for every input, including the early returns |
| PacketDecoder.ReadByte | src/ble_sniffer.rs:179-332 | one loop iteration either stops with the early-return packet of a frame that halts there, or keeps the decoder describing the longer prefix |
| PacketDecoder.WrongFirstByte | src/ble_sniffer.rs:183-184 | a first byte other than 6 stops the loop with the empty packet |
| PacketDecoder.ReadHeaderByte | src/ble_sniffer.rs:185-238 | a header byte at index 1 to 20 updates the packet to the header of the longer prefix |
| PacketDecoder.HeaderStep | src/ble_sniffer.rs:185-238 | a header byte keeps the decoder's state in step with the prefix read so far |
| PacketDecoder.LengthStep | src/ble_sniffer.rs:239-249 | at index 21 the decoder either stops exactly on a SCAN_REQ length mismatch, with the header so far, or stays in step (padding, length or the skipped byte) |
| PacketDecoder.AddressStep | src/ble_sniffer.rs:250-256 | an address byte at index 22 to 27 goes into the address selected by the PDU type, in reversed position |
| PacketDecoder.PayloadStep | src/ble_sniffer.rs:257-330 | at index 28 and beyond, a byte within the declared length is read as AD data or as the SCAN_REQ advertiser address, and any other byte is ignored |
| PacketDecoder.InLengthStep | src/ble_sniffer.rs:258-329 | a payload byte within the declared length keeps the decoder in step |
| PacketDecoder.AdDataStep | src/ble_sniffer.rs:259-324 | an ADV_NONCONN_IND payload byte advances the AD-structure reading by one byte |
| PacketDecoder.ReadAdByte | src/ble_sniffer.rs:260-323 | the AD state machine (length, type, value, with its `u8` counters) performs one step of the structural AD reading |
| PacketDecoder.ManufacturerFromCache | src/ble_sniffer.rs:301-317 | the company identifier is the first two cached bytes, least significant first, and the data is the rest |
| PacketDecoder.AdvertiserAddressStep | src/ble_sniffer.rs:325-326 | a SCAN_REQ payload byte at index 28 to 33 goes into the advertiser address, in reversed position |
| PacketDecoder.ScanAdvertiserStart | src/ble_sniffer.rs:246-248 | a SCAN_REQ that reaches its payload has declared length 12, so the advertiser index `33 - byte_index` stays in range |
| PacketDecoder.Finish | src/ble_sniffer.rs:333-339 | after the last byte the record for the PDU type is attached and the packet marked valid, giving `PacketOf` of the whole frame |
| PacketProperties.ValidIff | src/ble_sniffer.rs:183-184 | a packet is valid exactly when decoding does not return early |
| PacketProperties.TruncatedFrameValid | src/ble_sniffer.rs:338 | the empty frame and any frame of at most 22 bytes that starts with 6 decode as valid |
| PacketProperties.WrongHeaderLength | src/ble_sniffer.rs:183-184 | a first byte other than 6 gives the empty packet, whatever follows |
| PacketProperties.Counters16 | src/ble_sniffer.rs:187-217 | the packet counter is bytes 3 and 4 and the event counter bytes 10 and 11, least significant first |
| PacketProperties.Counters32 | src/ble_sniffer.rs:218-233 | the time delta is bytes 12 to 15 and the access address bytes 16 to 19, least significant first |
| PacketProperties.ByteFields | src/ble_sniffer.rs:185-213 | protocol version is byte 2, packet id byte 5, channel byte 8, RSSI minus byte 9, and the header's own protocol version stays 0 |
| PacketProperties.RssiRange | src/ble_sniffer.rs:212-213 | the RSSI always lies in -255..0 |
| PacketProperties.FlagsFields | src/ble_sniffer.rs:193-195 | CRC status is bit 0 of byte 7 and the PHY is bits 4 to 6, below 8 |
| PacketProperties.PduHeaderFields | src/ble_sniffer.rs:234-238 | PDU type is the low nibble of byte 20, ChSel bit 5, and each address is public iff its TxAdd/RxAdd bit is clear |
| PacketProperties.HeaderKinds | src/ble_sniffer.rs:193-209 | the advertising header is present iff byte 7 arrived and the packet id is 2, the data header iff it arrived and the id is 6 |
| PacketProperties.HeadersExclusive | src/ble_sniffer.rs:196-209 | never both headers |
| PacketProperties.RecordsByPduType | src/ble_sniffer.rs:333-338 | a valid packet carries the ADV_NONCONN_IND record iff its PDU type is 2 and the SCAN_REQ record iff it is 3, and an invalid one neither |
| PacketProperties.RecordsExclusive | src/ble_sniffer.rs:333-337 | never both records |
| PacketProperties.LeadingZerosPadding | src/ble_sniffer.rs:242-244 | zero bytes in front of the length area are skipped one by one |
| PacketProperties.ZeroPaddingAbsorbed | src/ble_sniffer.rs:239-245 | any run of zero bytes at index 21 leaves the decoded packet unchanged |
| PacketProperties.PaddingKeepsIndex | src/ble_sniffer.rs:242-244 | while zero padding is read the logical index stays at 21 and no length has been set |
| PacketProperties.SkippedByteIgnored | src/ble_sniffer.rs:245-249 | for a PDU type other than SCAN_REQ, the byte after the length has no effect on the packet |
| PacketProperties.ScanLengthChecked | src/ble_sniffer.rs:246-248 | once the byte after its length has arrived, a SCAN_REQ is valid exactly when the length is 12 |
| PacketProperties.Mac6Reversed | src/ble_sniffer.rs:250-255 | six address bytes read at index 22 to 27 are stored in reverse order |
| PacketProperties.NonConnAddress | src/ble_sniffer.rs:250-252 | an ADV_NONCONN_IND's advertiser address is its first six payload bytes reversed |
| PacketProperties.ScanReqAddresses | src/ble_sniffer.rs:253-254 | a SCAN_REQ of length 12 carries the scanner address (payload bytes 0-5 reversed) and the advertiser address (bytes 6-11 reversed) |
| PacketProperties.SecondAddress | src/ble_sniffer.rs:325-326 | with length 12 the bytes read after the first address are exactly the second address |
| PacketProperties.BeyondLengthIgnored | src/ble_sniffer.rs:258 | once the address and the declared length are used up, further bytes do not change the packet |
| Advertising.ParseAds | src/ble_sniffer.rs:258-324 | reading advertising data never changes the advertiser address |
| Advertising.AdSnoc | src/ble_sniffer.rs:258-324 | one more byte moves the structural reading exactly as one step of the byte-level state machine does |
| Advertising.ApplyValueSnoc | src/ble_sniffer.rs:271-320 | recording a value byte by byte ends in the same record as recording it at once |
| Advertising.AsciiIsUtf8 | src/ble_sniffer.rs:285 | bytes below 0x80 are always accepted as a local name |
| Advertising.TruncatedCharRejected | src/ble_sniffer.rs:285-292 | a lone lead byte of a multi-byte character is rejected |
| AdProperties.TypesSnoc | src/ble_sniffer.rs:266-270 | a type is appended exactly when the byte arrives where a type is expected |
| AdProperties.TypesOf | src/ble_sniffer.rs:266-270 | the type list of complete structures has one entry per structure, its type byte, in order |
| AdProperties.TypesOfJoin | src/ble_sniffer.rs:258-323 | complete structures laid end to end record all their type bytes, in order, after the types already recorded |
| AdProperties.TypesOnlyGrow | src/ble_sniffer.rs:266-270 | the list of AD types only grows: recorded types keep their place |
| AdProperties.CompleteStructure | src/ble_sniffer.rs:321-323 | a complete structure is read on its own and the next one starts right after it |
| AdProperties.JoinComplete | src/ble_sniffer.rs:321-323 | after any run of complete structures, what follows is read from the record they leave |
| AdProperties.ReadSingle | src/ble_sniffer.rs:260-323 | a lone structure records its type and then its value, as complete exactly when its length is at least 2 and all value bytes arrived |
| AdProperties.FlagsLastByte | src/ble_sniffer.rs:273-281 | the flags come from the last value byte seen, complete or not |
| AdProperties.TxPowerLastByte | src/ble_sniffer.rs:295-297 | the TX power level is the last value byte seen |
| AdProperties.NameOnlyWhenComplete | src/ble_sniffer.rs:282-294 | the local name is set iff its structure is complete and valid UTF-8, and the earlier value stays otherwise |
| AdProperties.ManufacturerOnlyWhenComplete | src/ble_sniffer.rs:298-319 | the manufacturer data is set iff its structure is complete, for any number of value bytes: the company id from the first two value bytes least significant first, a missing second byte reading as zero, and the rest as data |
| AdProperties.ManufacturerOneByte | src/ble_sniffer.rs:298-317 | a complete structure with a single value byte `x` gives company id `x` and empty data |
| AdProperties.FlagsLastWriteWins | src/ble_sniffer.rs:273-281 | after any run of complete structures, earlier flags structures among them, a final flags structure sets the flags from its last value byte and appends its type to those read before |
| AdProperties.ShortLengthSwallows | src/ble_sniffer.rs:260-272 | a structure with length byte 0 or 1 never completes and absorbs every later byte as value |

## Left out

- Serial port handling is not modelled: opening, retry after failure, the one-second sleeps, writes and their error messages (src/ble_sniffer.rs:401-431, 469-482). A run is modelled as the sequence of chunks the reads deliver.
- The commands' write to the port is not modelled: `OpenSession` returns the two byte strings instead.
- The stop request is not modelled: `thread_should_stop`, polling the control channel and the outer loop's `stop_request` (src/ble_sniffer.rs:400-405, 427-430, 486-501). These are concurrency and timing, so the property that nothing is published after a stop is not stated.
- The `Sender` channel is not modelled: `tx.send` becomes appending to the returned sequence of packets, and the ignored send error is dropped.
- `print_hex_bytes` (src/ble_sniffer.rs:539-544), console output and `SNIFFER_VERSION` are output only.
- The application entry point and its consumer of the channel are not part of this model.
- `String::from_utf8` is library code. It is replaced by `Advertising.ValidUtf8`, and the decoded name is kept as its byte sequence.
- Rust's integer overflow panics are not modelled as runtime errors. The model's counters are bounded subset types, so every `+= 1` and `-= 1` is proved to stay in range instead, including `33 - byte_index` and `27 - byte_index` as array indices.
- Firmware constants the code declares but never uses (other protocol versions and event codes) are not modelled.
