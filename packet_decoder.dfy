/** The byte-by-byte decoder of one frame into a packet, with the counters
    and the AD-structure state machine it keeps while it reads, proved to
    compute `PacketFormat.PacketOf`. */
module PacketDecoder {
  import opened Prelude
  import opened Protocol
  import opened Advertising
  import opened PacketFormat

  /** The bytes of an AD structure kept while it is read: only the local
      name and the manufacturer data are collected. */
  function CachedValue(t: byte, vals: seq<byte>): seq<byte>
  {
    if t == AD_COMPLETE_LOCAL_NAME || t == AD_MANUFACTURER_SPECIFIC then vals else []
  }

  /** The locals of the decoder's AD-structure state machine: what it
      expects next (`readStatus` 0: a length byte, 1: a type byte, 2: value
      bytes), the structure's length byte and type, how many of its bytes it
      has counted, and the value bytes it keeps. */
  datatype AdReader = AdReader(readStatus: byte, infoLen: byte, infoIndex: byte, infoType: byte, cacheBytes: seq<byte>)

  const NEW_AD_READER := AdReader(0, 0, 0, 0, [])

  /** The state machine's locals agree with the cursor of the
      structure-by-structure reading. */
  predicate CursorMatches(c: AdCursor, r: AdReader)
  {
    match c
    case AtLength => r.readStatus == 0
    case AtType(len) =>
      r.readStatus == 1 && r.infoLen == len && r.infoIndex == 0 && r.infoType == 0 && r.cacheBytes == []
    case InValue(len, t, vals) =>
      r.readStatus == 2 && r.infoLen == len && r.infoType == t && r.infoIndex == |vals| + 1 &&
      r.cacheBytes == CachedValue(t, vals)
  }

  /** The locals of `BlePacketFrom`: the packet being filled in, the
      logical byte index, the declared payload length and the count of
      payload bytes read, the AD-structure state machine, and the two
      payload records. */
  datatype Decoder = Decoder(
    result: Packet, byteIndex: nat, llPayloadLen: byte, llPayloadIndex: byte,
    ad: AdReader, nonConnIndMsg: NonConnInd, scanReqMsg: ScanReq)

  const NEW_DECODER := Decoder(NewPacket(), 0, 0, 0, NEW_AD_READER, NewNonConnInd(), NewScanReq())

  /** What the decoder's locals hold after it has read `p` without
      stopping: the starting values before the first byte, and then the
      headers, counters and payload records that `p` determines. */
  ghost predicate Reads(p: seq<byte>, d: Decoder)
  {
    if |p| == 0 then d == NEW_DECODER else Describes(p, d)
  }

  ghost predicate Describes(p: seq<byte>, d: Decoder)
  {
    Counters(p, d) && Records(p, d)
  }

  /** The headers and the counters. */
  ghost predicate Counters(p: seq<byte>, d: Decoder)
  {
    && (|p| > 0 ==> p[0] == HEADER_LENGTH)
    && !ScanLengthMismatch(p)
    && d.result == BaseOf(p)
    && d.byteIndex == LogicalIndex(p)
    && d.llPayloadLen == PayloadLength(p)
    && d.llPayloadIndex == PayloadCount(p)
  }

  /** The payload records and the AD-structure state machine. */
  ghost predicate Records(p: seq<byte>, d: Decoder)
  {
    && (|Body(p)| == 0 ==> d.nonConnIndMsg == NewNonConnInd() && d.scanReqMsg == NewScanReq() && d.ad.readStatus == 0)
    && (PduType(p) == ADV_TYPE_ADV_NONCONN_IND ==>
          d.nonConnIndMsg == NonConnOf(p) && CursorMatches(Pending(AdData(p)), d.ad))
    && (PduType(p) == ADV_TYPE_SCAN_REQ ==> d.scanReqMsg == ScanReqOf(p))
  }

  /** The company identifier (two bytes, least significant first) and the
      remaining data of a manufacturer-specific AD structure. */
  method ManufacturerFromCache(cache: seq<byte>) returns (m: ManufacturerSpecificData)
    ensures m.companyId == LittleEndian16(At(cache, 0), At(cache, 1))
    ensures m.data == if |cache| >= 2 then cache[2..] else []
  {
    var cacheBytesIndex: nat := 0;
    var companyId: u16 := 0;
    var extraData: seq<byte> := [];
    while cacheBytesIndex < |cache|
      invariant cacheBytesIndex <= |cache|
      invariant cacheBytesIndex == 0 ==> companyId == 0
      invariant cacheBytesIndex == 1 ==> companyId == cache[0]
      invariant cacheBytesIndex >= 2 ==> companyId == LittleEndian16(cache[0], cache[1])
      invariant extraData == if cacheBytesIndex >= 2 then cache[2..cacheBytesIndex] else []
    {
      var b1 := cache[cacheBytesIndex];
      if cacheBytesIndex == 0 {
        companyId := Or16(companyId, b1);
      } else if cacheBytesIndex == 1 {
        OrAt8(companyId, b1);
        companyId := Or16(companyId, b1 as u16 * 0x100);
      } else {
        extraData := extraData + [b1];
      }
      cacheBytesIndex := cacheBytesIndex + 1;
    }
    m := ManufacturerSpecificData(companyId, extraData);
  }

  /** One header byte (positions 0 to 20 of the frame): the field it
      belongs to is filled in; positions 0, 1 and 6 are skipped. */
  method ReadHeaderByte(result: Packet, byteIndex: nat, b: byte, ghost p: seq<byte>) returns (r: Packet)
    requires 1 <= |p| == byteIndex <= 20 && result == BaseOf(p)
    ensures r == BaseOf(p + [b])
  {
    r := result;
  if byteIndex == 2 {
      ProtocolVersionByte(p, b);
      r := r.(protocolVersion := b);
    } else if byteIndex == 3 {
      PacketCounterByte(p, b);
      r := r.(packetCounter := Or16(r.packetCounter, b));
    } else if byteIndex == 4 {
      PacketCounterByte(p, b);
      r := r.(packetCounter := Or16(r.packetCounter, b as u16 * 0x100));
    } else if byteIndex == 5 {
      PacketIdByte(p, b);
      r := r.(packetId := b);
    } else if byteIndex == 7 {
      FlagsByte(p, b);
      var header := r.packetHeader.(crcOk := Bit(b, 0), phy := Bits(b, 4, 3));
      if r.packetId == EVENT_PACKET_DATA_PDU {
        header := header.(dataHeader := Some(PacketHeaderData(Bit(b, 1), Bit(b, 2), Bit(b, 3))));
      } else if r.packetId == EVENT_PACKET_ADV_PDU {
        header := header.(advHeader := Some(PacketHeaderAdv(Bits(b, 1, 2), Bit(b, 3))));
      }
      r := r.(packetHeader := header);
    } else if byteIndex == 8 {
      ChannelByte(p, b);
      r := r.(packetHeader := r.packetHeader.(channelIndex := b));
    } else if byteIndex == 9 {
      RssiByte(p, b);
      r := r.(packetHeader := r.packetHeader.(rssi := 0 - b as int));
    } else if byteIndex == 10 {
      EventCounterByte(p, b);
      r := r.(packetHeader := r.packetHeader.(eventCounter := Or16(r.packetHeader.eventCounter, b)));
    } else if byteIndex == 11 {
      EventCounterByte(p, b);
      r := r.(packetHeader := r.packetHeader.(eventCounter := Or16(r.packetHeader.eventCounter, b as u16 * 0x100)));
    } else if byteIndex == 12 {
      DeltaTimeByte(p, b);
      r := r.(packetHeader := r.packetHeader.(deltaTimeUs := Or32(r.packetHeader.deltaTimeUs, b)));
    } else if byteIndex == 13 {
      DeltaTimeByte(p, b);
      r := r.(packetHeader := r.packetHeader.(deltaTimeUs := Or32(r.packetHeader.deltaTimeUs, b as u32 * 0x100)));
    } else if byteIndex == 14 {
      DeltaTimeByte(p, b);
      r := r.(packetHeader := r.packetHeader.(deltaTimeUs := Or32(r.packetHeader.deltaTimeUs, b as u32 * 0x1_0000)));
    } else if byteIndex == 15 {
      DeltaTimeByte(p, b);
      r := r.(packetHeader := r.packetHeader.(deltaTimeUs := Or32(r.packetHeader.deltaTimeUs, b as u32 * 0x100_0000)));
    } else if byteIndex == 16 {
      AccessAddressByte(p, b);
      r := r.(llLayerData := r.llLayerData.(accessAddress := Or32(r.llLayerData.accessAddress, b)));
    } else if byteIndex == 17 {
      AccessAddressByte(p, b);
      r := r.(llLayerData := r.llLayerData.(accessAddress := Or32(r.llLayerData.accessAddress, b as u32 * 0x100)));
    } else if byteIndex == 18 {
      AccessAddressByte(p, b);
      r := r.(llLayerData := r.llLayerData.(accessAddress := Or32(r.llLayerData.accessAddress, b as u32 * 0x1_0000)));
    } else if byteIndex == 19 {
      AccessAddressByte(p, b);
      r := r.(llLayerData := r.llLayerData.(accessAddress := Or32(r.llLayerData.accessAddress, b as u32 * 0x100_0000)));
    } else if byteIndex == 20 {
      PduHeaderByte(p, b);
      r := r.(llLayerData := r.llLayerData.(
        pduType := Bits(b, 0, 4),
        channelSelect := Bits(b, 5, 1),
        txAddressPublic := !Bit(b, 6),
        rxAddressPublic := !Bit(b, 7)));
    } else {
      SkippedHeaderByte(p, b);
    }
  }

  /** One byte of advertising data read by the AD-structure state machine:
      it moves the record and the cursor as `AdStep` does. */
  method ReadAdByte(ad: AdReader, msg: NonConnInd, b: byte, ghost c: AdCursor) returns (ad': AdReader, msg': NonConnInd)
    requires CursorMatches(c, ad)
    requires c.InValue? ==> |c.vals| + 2 < 0x100
    ensures msg' == AdStep(msg, c, b).0
    ensures CursorMatches(AdStep(msg, c, b).1, ad')
  {
    ad' := ad;
    msg' := msg;
    if ad.readStatus == 0 {
      ad' := AdReader(readStatus := 1, infoLen := b, infoIndex := 0, infoType := 0, cacheBytes := []);
    } else if ad.readStatus == 1 {
      msg' := msg.(advertisingTypes := msg.advertisingTypes + [b]);
      ad' := ad.(infoType := b, readStatus := 2, infoIndex := ad.infoIndex + 1);
    } else if ad.readStatus == 2 {
      var infoIndex := ad.infoIndex + 1;
      var cacheBytes := ad.cacheBytes;
      if ad.infoType == AD_FLAGS {
        msg' := msg.(flags := Some(FlagsOf(b)));
      } else if ad.infoType == AD_COMPLETE_LOCAL_NAME {
        cacheBytes := cacheBytes + [b];
        if infoIndex == ad.infoLen {
          if ValidUtf8(cacheBytes) {
            msg' := msg.(completeLocalName := Some(CompleteLocalName(cacheBytes)));
          }
        }
      } else if ad.infoType == AD_TX_POWER_LEVEL {
        msg' := msg.(txPowerLevel := Some(TxPowerLevel(b)));
      } else if ad.infoType == AD_MANUFACTURER_SPECIFIC {
        cacheBytes := cacheBytes + [b];
        if infoIndex == ad.infoLen {
          var manufacturerData := ManufacturerFromCache(cacheBytes);
          msg' := msg.(manufacturerData := Some(manufacturerData));
        }
      }
      ad' := ad.(infoIndex := infoIndex, cacheBytes := cacheBytes);
      if infoIndex == ad.infoLen {
        ad' := ad'.(readStatus := 0);
      }
    }
  }

  /** A byte at logical index 0 to 20 (the first one being the header
      length 6). */
  method HeaderStep(d: Decoder, b: byte, ghost p: seq<byte>) returns (d': Decoder)
    requires Reads(p, d) && d.byteIndex <= 20 && (d.byteIndex == 0 ==> b == HEADER_LENGTH)
    ensures Describes(p + [b], d')
  {
    HeaderOnly(p + [b]);
    var result := d.result;
    if d.byteIndex == 0 {
      FirstByte(p + [b]);
    } else {
      HeaderOnly(p);
      result := ReadHeaderByte(d.result, d.byteIndex, b, p);
    }
    d' := d.(result := result, byteIndex := d.byteIndex + 1);
  }

  /** A byte at logical index 21: zero padding, the declared payload length,
      or the byte after it, where a SCAN_REQ of the wrong length stops the
      decoder. */
  method LengthStep(d: Decoder, b: byte, ghost p: seq<byte>) returns (d': Decoder, stop: bool)
    requires Describes(p, d) && d.byteIndex == 21
    ensures stop ==> ScanLengthMismatch(p + [b]) && d'.result == BaseOf(p + [b])
    ensures !stop ==> Describes(p + [b], d')
  {
    LengthSnoc(p, b);
    BaseOfSnoc(p, b);
    d' := d;
    stop := false;
    var byteIndex := d.byteIndex;
    if d.llPayloadLen == 0 {
      d' := d'.(llPayloadLen := b);
      byteIndex := byteIndex - 1;
    } else {
      if d.result.llLayerData.pduType == ADV_TYPE_SCAN_REQ && d.llPayloadLen != SCAN_REQ_PAYLOAD_LENGTH {
        stop := true;
        return;
      }
    }
    d' := d'.(byteIndex := byteIndex + 1);
  }

  /** A byte at logical index 22 to 27: one of the six address bytes,
      least significant first. */
  method AddressStep(d: Decoder, b: byte, ghost p: seq<byte>) returns (d': Decoder)
    requires Describes(p, d) && 22 <= d.byteIndex <= 27
    ensures Describes(p + [b], d')
  {
    d' := d;
    if d.result.llLayerData.pduType == ADV_TYPE_ADV_NONCONN_IND {
      d' := d'.(nonConnIndMsg := d.nonConnIndMsg.(advertisingMac := d.nonConnIndMsg.advertisingMac[27 - d.byteIndex := b]));
    } else if d.result.llLayerData.pduType == ADV_TYPE_SCAN_REQ {
      d' := d'.(scanReqMsg := d.scanReqMsg.(scanningMac := d.scanReqMsg.scanningMac[27 - d.byteIndex := b]));
    }
    d' := d'.(llPayloadIndex := d.llPayloadIndex + 1, byteIndex := d.byteIndex + 1);
    AddressCounters(p, b, d, d');
    AddressRecordsStep(p, b, d, d');
  }

  lemma AddressCounters(p: seq<byte>, b: byte, d: Decoder, d': Decoder)
    requires Describes(p, d) && 22 <= d.byteIndex <= 27
    requires d' == d.(llPayloadIndex := d'.llPayloadIndex, byteIndex := d.byteIndex + 1,
      nonConnIndMsg := d'.nonConnIndMsg, scanReqMsg := d'.scanReqMsg)
    requires d'.llPayloadIndex == d.llPayloadIndex + 1
    ensures Counters(p + [b], d')
  {
    MacByte(p, b);
    BaseOfSnoc(p, b);
  }

  lemma AddressRecordsStep(p: seq<byte>, b: byte, d: Decoder, d': Decoder)
    requires Describes(p, d) && 22 <= d.byteIndex <= 27
    requires var pdu := d.result.llLayerData.pduType;
      && d'.ad == d.ad
      && d'.nonConnIndMsg == (if pdu == ADV_TYPE_ADV_NONCONN_IND
        then d.nonConnIndMsg.(advertisingMac := d.nonConnIndMsg.advertisingMac[27 - d.byteIndex := b])
        else d.nonConnIndMsg)
      && d'.scanReqMsg == (if pdu == ADV_TYPE_SCAN_REQ
        then d.scanReqMsg.(scanningMac := d.scanReqMsg.scanningMac[27 - d.byteIndex := b])
        else d.scanReqMsg)
    ensures Records(p + [b], d')
  {
    MacByte(p, b);
    AddressRecords(p, b);
    BaseOfSnoc(p, b);
  }

  /** A byte at logical index 28 or more: while the declared length has
      room, advertising data for an ADV_NONCONN_IND or the advertiser's
      address for a SCAN_REQ; beyond it, nothing. */
  method PayloadStep(d: Decoder, b: byte, ghost p: seq<byte>) returns (d': Decoder)
    requires Describes(p, d) && d.byteIndex >= 28
    ensures Describes(p + [b], d')
  {
    if d.llPayloadIndex < d.llPayloadLen {
      d' := InLengthStep(d, b, p);
    } else {
      OtherByte(p, b);
      OtherByteRecords(p, b);
      BaseOfSnoc(p, b);
      d' := d.(byteIndex := d.byteIndex + 1);
    }
  }

  /** A payload byte after the address that the declared length covers:
      advertising data for an ADV_NONCONN_IND, the advertiser's address for a
      SCAN_REQ, counted but otherwise unused for any other PDU type. */
  method InLengthStep(d: Decoder, b: byte, ghost p: seq<byte>) returns (d': Decoder)
    requires Describes(p, d) && d.byteIndex >= 28 && d.llPayloadIndex < d.llPayloadLen
    ensures Describes(p + [b], d')
  {
    if d.result.llLayerData.pduType == ADV_TYPE_ADV_NONCONN_IND {
      d' := AdDataStep(d, b, p);
    } else if d.result.llLayerData.pduType == ADV_TYPE_SCAN_REQ {
      d' := AdvertiserAddressStep(d, b, p);
    } else {
      BaseOfSnoc(p, b);
      PayloadByte(p, b);
      d' := d.(llPayloadIndex := d.llPayloadIndex + 1, byteIndex := d.byteIndex + 1);
    }
  }

  /** An advertising-data byte of an ADV_NONCONN_IND. */
  method AdDataStep(d: Decoder, b: byte, ghost p: seq<byte>) returns (d': Decoder)
    requires Describes(p, d) && d.byteIndex >= 28 && d.llPayloadIndex < d.llPayloadLen
    requires d.result.llLayerData.pduType == ADV_TYPE_ADV_NONCONN_IND
    ensures Describes(p + [b], d')
  {
    BaseOfSnoc(p, b);
    PayloadByte(p, b);
    NonConnByte(p, b);
    var ad, msg := ReadAdByte(d.ad, d.nonConnIndMsg, b, Pending(AdData(p)));
    d' := d.(ad := ad, nonConnIndMsg := msg, llPayloadIndex := d.llPayloadIndex + 1, byteIndex := d.byteIndex + 1);
  }

  /** A byte of the advertiser's address in a SCAN_REQ. */
  method AdvertiserAddressStep(d: Decoder, b: byte, ghost p: seq<byte>) returns (d': Decoder)
    requires Describes(p, d) && d.byteIndex >= 28 && d.llPayloadIndex < d.llPayloadLen
    requires d.result.llLayerData.pduType == ADV_TYPE_SCAN_REQ
    ensures Describes(p + [b], d')
  {
    ScanAdvertiserStart(p, d);
    d' := d.(
      scanReqMsg := d.scanReqMsg.(advertisingMac := d.scanReqMsg.advertisingMac[33 - d.byteIndex := b]),
      llPayloadIndex := d.llPayloadIndex + 1, byteIndex := d.byteIndex + 1);
    InLengthCounters(p, b, d, d');
    ScanAdvertiserRecords(p, b, d, d');
  }

  /** Within the declared length of a SCAN_REQ, the decoder is at most six
      bytes past the scanner's address. */
  lemma ScanAdvertiserStart(p: seq<byte>, d: Decoder)
    requires Describes(p, d) && d.byteIndex >= 28 && d.llPayloadIndex < d.llPayloadLen
    requires d.result.llLayerData.pduType == ADV_TYPE_SCAN_REQ
    ensures d.byteIndex < 34 && d.llPayloadLen == SCAN_REQ_PAYLOAD_LENGTH
  {
    BaseOfSnoc(p, 0);
    PayloadByte(p, 0);
    ScanAdvertiserByte(p, 0);
  }

  /** The counters after a payload byte within the declared length. */
  lemma InLengthCounters(p: seq<byte>, b: byte, d: Decoder, d': Decoder)
    requires Describes(p, d) && d.byteIndex >= 28 && d.llPayloadIndex < d.llPayloadLen
    requires d' == d.(llPayloadIndex := d'.llPayloadIndex, byteIndex := d.byteIndex + 1,
      ad := d'.ad, nonConnIndMsg := d'.nonConnIndMsg, scanReqMsg := d'.scanReqMsg)
    requires d'.llPayloadIndex == d.llPayloadIndex + 1
    ensures Counters(p + [b], d')
  {
    BaseOfSnoc(p, b);
    PayloadByte(p, b);
  }

  /** The records after a byte of the advertiser's address in a SCAN_REQ. */
  lemma ScanAdvertiserRecords(p: seq<byte>, b: byte, d: Decoder, d': Decoder)
    requires Describes(p, d) && 28 <= d.byteIndex < 34 && d.llPayloadIndex < d.llPayloadLen
    requires d.result.llLayerData.pduType == ADV_TYPE_SCAN_REQ
    requires d' == d.(scanReqMsg := d.scanReqMsg.(advertisingMac := d.scanReqMsg.advertisingMac[33 - d.byteIndex := b]),
      llPayloadIndex := d'.llPayloadIndex, byteIndex := d'.byteIndex)
    ensures Records(p + [b], d')
  {
    BaseOfSnoc(p, b);
    PayloadByte(p, b);
    ScanAdvertiserByte(p, b);
  }

  /** Byte `k` of the frame, as one turn of the decoder's loop. `stop`
      says the decoder returns here, with `d'.result` the packet of the whole
      frame. */
  method ReadByte(d: Decoder, bytes: seq<byte>, k: nat) returns (d': Decoder, stop: bool)
    requires k < |bytes| && Reads(bytes[..k], d)
    ensures stop ==> Halts(bytes[..k + 1]) && d'.result == Halted(bytes[..k + 1])
    ensures !stop ==> Reads(bytes[..k + 1], d')
  {
    var b := bytes[k];
    ghost var p := bytes[..k];
    assert bytes[..k + 1] == p + [b];
    stop := false;
    if d.byteIndex == 0 && b != HEADER_LENGTH {
      WrongFirstByte(p, d, b);
      d', stop := d, true;
    } else if d.byteIndex <= 20 {
      d' := HeaderStep(d, b, p);
    } else if d.byteIndex == 21 {
      d', stop := LengthStep(d, b, p);
    } else if d.byteIndex <= 27 {
      d' := AddressStep(d, b, p);
    } else {
      d' := PayloadStep(d, b, p);
    }
    if !stop {
      DescribesReads(p + [b], d');
    }
  }

  lemma DescribesReads(p: seq<byte>, d: Decoder)
    requires |p| > 0 && Describes(p, d)
    ensures Reads(p, d)
  {
  }

  /** A first byte other than the header length stops the decoder with
      the starting packet. */
  lemma WrongFirstByte(p: seq<byte>, d: Decoder, b: byte)
    requires Reads(p, d) && d.byteIndex == 0 && b != HEADER_LENGTH
    ensures |p| == 0 && Halts(p + [b]) && d.result == Halted(p + [b])
  {
    assert |p| > 0 ==> LogicalIndex(p) > 0;
  }

  /** Decodes one frame. */
  method BlePacketFrom(bytes: seq<byte>) returns (result: Packet)
    ensures result == PacketOf(bytes)
  {
    var d := NEW_DECODER;
    for k := 0 to |bytes|
      invariant Reads(bytes[..k], d)
    {
      var stop;
      d, stop := ReadByte(d, bytes, k);
      if stop {
        HaltPrefix(bytes, k + 1);
        return d.result;
      }
    }
    assert bytes[..|bytes|] == bytes;
    result := Finish(d, bytes);
  }

  /** The end of the frame: the record the PDU type calls for is attached
      and the packet is marked valid. */
  method Finish(d: Decoder, ghost s: seq<byte>) returns (result: Packet)
    requires Reads(s, d)
    ensures result == PacketOf(s)
  {
    if |s| == 0 {
      EmptyFrame(s);
    }
    result := d.result;
    if result.llLayerData.pduType == ADV_TYPE_ADV_NONCONN_IND {
      result := result.(llLayerData := result.llLayerData.(nonConnInd := Some(d.nonConnIndMsg)));
    } else if result.llLayerData.pduType == ADV_TYPE_SCAN_REQ {
      result := result.(llLayerData := result.llLayerData.(scanReq := Some(d.scanReqMsg)));
    }
    result := result.(valid := true);
  }
}
