/** What one decoded frame means, stated field by field over the frame's
    bytes: the sniffer's UART header (bytes 0 to 15), the link-layer
    header (bytes 16 to 20) and the advertising payload that follows.

    Beyond the header the decoder reads the frame as the code does, which
    differs from Wireshark's view of the same PDU. Zero bytes at position 21
    are skipped; the first nonzero byte there is the declared payload length
    `L`; the byte after it is skipped too (it is the one byte the SCAN_REQ
    length check looks at); what follows is the payload `Body`. The first six
    payload bytes are the advertiser's (or scanner's) address, least
    significant first, and at most `L - 6` further bytes are read as
    advertising data. */
module PacketFormat {
  import opened Prelude
  import opened Protocol
  import opened Advertising

  /** Byte `b` moved to byte `k` of a little-endian number: `b << (8 * k)`. */
  function Shifted(b: byte, k: nat): u32
    requires k <= 3
  {
    if k == 0 then b else if k == 1 then b * 0x100 else if k == 2 then b * 0x1_0000 else b * 0x100_0000
  }

  /** Bytes `i` to `i + 3` of `s` as a little-endian number. */
  function Word32At(s: seq<byte>, i: nat): u32
  {
    LittleEndian32(LittleEndian16(At(s, i), At(s, i + 1)), LittleEndian16(At(s, i + 2), At(s, i + 3)))
  }

  function Min(a: int, b: int): int
  {
    if a < b then a else b
  }

  /** The sniffer header. `protocolVersion` of the header is never written;
      the flags byte 7 is read as an advertising or a data header according
      to the packet id in byte 5. */
  function HeaderOf(s: seq<byte>): PacketHeader
  {
    PacketHeader(
      protocolVersion := 0,
      crcOk := |s| > 7 && Bit(s[7], 0),
      advHeader :=
        if |s| > 7 && s[5] == EVENT_PACKET_ADV_PDU
        then Some(PacketHeaderAdv(Bits(s[7], 1, 2), Bit(s[7], 3)))
        else None,
      dataHeader :=
        if |s| > 7 && s[5] == EVENT_PACKET_DATA_PDU
        then Some(PacketHeaderData(Bit(s[7], 1), Bit(s[7], 2), Bit(s[7], 3)))
        else None,
      phy := if |s| > 7 then Bits(s[7], 4, 3) else 0,
      channelIndex := At(s, 8),
      rssi := -(At(s, 9) as int),
      eventCounter := LittleEndian16(At(s, 10), At(s, 11)),
      deltaTimeUs := Word32At(s, 12))
  }

  /** The link-layer header: access address, then the PDU header's first
      byte (PDU type in bits 0-3, ChSel in bit 5, TxAdd in bit 6, RxAdd in
      bit 7; an address is public when its bit is clear). */
  function LinkLayerOf(s: seq<byte>): LinkLayer
  {
    LinkLayer(
      accessAddress := Word32At(s, 16),
      pduType := PduType(s),
      channelSelect := if |s| > 20 then Bits(s[20], 5, 1) else 0,
      txAddressPublic := |s| > 20 && !Bit(s[20], 6),
      rxAddressPublic := |s| > 20 && !Bit(s[20], 7),
      nonConnInd := None,
      scanReq := None)
  }

  /** Everything the first 21 bytes determine, with the packet not yet
      marked valid. */
  function BaseOf(s: seq<byte>): Packet
  {
    Packet(
      valid := false,
      protocolVersion := At(s, 2),
      packetCounter := LittleEndian16(At(s, 3), At(s, 4)),
      packetId := At(s, 5),
      packetHeader := HeaderOf(s),
      llLayerData := LinkLayerOf(s))
  }

  /** The PDU type: the low four bits of byte 20. */
  function PduType(s: seq<byte>): byte
  {
    if |s| > 20 then Bits(s[20], 0, 4) else 0
  }

  /** The bytes from position 21 on. */
  function LengthArea(s: seq<byte>): seq<byte>
  {
    if |s| >= 21 then s[21..] else []
  }

  function LeadingZeros(t: seq<byte>): (n: nat)
    ensures n <= |t|
    ensures n < |t| ==> t[n] != 0
  {
    if |t| == 0 || t[0] != 0 then 0 else 1 + LeadingZeros(t[1..])
  }

  /** A nonzero byte has arrived at position 21 or after. */
  predicate HasLength(s: seq<byte>)
  {
    LeadingZeros(LengthArea(s)) < |LengthArea(s)|
  }

  /** The declared payload length, or 0 if none has arrived. */
  function PayloadLength(s: seq<byte>): byte
  {
    if HasLength(s) then LengthArea(s)[LeadingZeros(LengthArea(s))] else 0
  }

  /** The bytes after the declared payload length. */
  function AfterLength(s: seq<byte>): seq<byte>
  {
    if HasLength(s) then LengthArea(s)[LeadingZeros(LengthArea(s)) + 1..] else []
  }

  /** The payload: the bytes after the length and the skipped byte. */
  function Body(s: seq<byte>): seq<byte>
  {
    if |AfterLength(s)| > 0 then AfterLength(s)[1..] else []
  }

  /** A SCAN_REQ whose declared payload length is not 12, detected once the
      byte after the length has arrived. */
  predicate ScanLengthMismatch(s: seq<byte>)
  {
    PduType(s) == ADV_TYPE_SCAN_REQ && |AfterLength(s)| > 0 && PayloadLength(s) != SCAN_REQ_PAYLOAD_LENGTH
  }

  /** An address sent least significant byte first, in display order;
      missing bytes read as zero. */
  function Mac6(s: seq<byte>): Mac
  {
    [At(s, 5), At(s, 4), At(s, 3), At(s, 2), At(s, 1), At(s, 0)]
  }

  /** The part of the payload after the address that the declared length
      still covers. */
  function AdWindow(body: seq<byte>, len: byte): (w: seq<byte>)
    ensures |w| <= 249
  {
    if |body| > 6 && len > 6 then body[6..Min(|body|, len)] else []
  }

  function AdData(s: seq<byte>): seq<byte>
  {
    AdWindow(Body(s), PayloadLength(s))
  }

  function NonConnOf(s: seq<byte>): NonConnInd
  {
    ParseAds(NewNonConnInd().(advertisingMac := Mac6(Body(s))), AdData(s))
  }

  function ScanReqOf(s: seq<byte>): ScanReq
  {
    ScanReq(Mac6(Body(s)), Mac6(AdData(s)))
  }

  /** The packet decoded from frame `s`. A frame whose first byte is not the
      header length 6 yields the empty invalid packet; a SCAN_REQ with the
      wrong payload length yields its headers, still invalid; every other
      frame, including the empty one, is valid, with the ADV_NONCONN_IND or
      SCAN_REQ payload attached when the PDU type says so. */
  function PacketOf(s: seq<byte>): (p: Packet)
    ensures p.valid ==> |s| == 0 || s[0] == HEADER_LENGTH
  {
    if |s| > 0 && s[0] != HEADER_LENGTH then NewPacket()
    else if ScanLengthMismatch(s) then BaseOf(s)
    else
      var base := BaseOf(s);
      var pdu := PduType(s);
      base.(
        valid := true,
        llLayerData := base.llLayerData.(
          nonConnInd := if pdu == ADV_TYPE_ADV_NONCONN_IND then Some(NonConnOf(s)) else None,
          scanReq := if pdu == ADV_TYPE_SCAN_REQ then Some(ScanReqOf(s)) else None))
  }

  /** The decoder returns early: the first byte is not the header length,
      or a SCAN_REQ is found to declare the wrong length. */
  predicate Halts(s: seq<byte>)
  {
    (|s| > 0 && s[0] != HEADER_LENGTH) || ScanLengthMismatch(s)
  }

  /** What the decoder returns when it returns early: the starting packet
      for a wrong first byte, the headers read so far for a wrong SCAN_REQ
      length. */
  function Halted(s: seq<byte>): Packet
  {
    if |s| > 0 && s[0] != HEADER_LENGTH then NewPacket() else BaseOf(s)
  }

  /** Once the decoder has returned, later bytes change nothing. */
  lemma HaltPrefix(s: seq<byte>, n: nat)
    requires 1 <= n <= |s| && Halts(s[..n])
    ensures PacketOf(s) == PacketOf(s[..n]) == Halted(s[..n])
  {
    if s[0] == HEADER_LENGTH {
      assert n >= 21;
      MismatchPrefix(s, n);
      BaseOfPrefix(s, n);
    }
  }

  // ---------------------------------------------------------------------
  // How the decoder's counters relate to the bytes read so far.

  /** The decoder's byte index after reading `s`: it stays at 21 while the
      zero padding, the length and the byte after it are read. */
  function LogicalIndex(s: seq<byte>): nat
  {
    if |s| <= 21 then |s|
    else if |AfterLength(s)| == 0 then 21
    else 22 + |Body(s)|
  }

  /** The number of payload bytes the decoder has counted: the address bytes
      always, the rest only while the declared length lasts. */
  function PayloadCount(s: seq<byte>): nat
  {
    Min(|Body(s)|, 6) + |AdData(s)|
  }

  // ---------------------------------------------------------------------
  // One more byte.

  lemma AtSnoc(s: seq<byte>, b: byte)
    ensures forall i: nat :: At(s + [b], i) == if i == |s| then b else At(s, i)
  {
    AtAll(s);
    AtAll(s + [b]);
  }

  /** Before position 21 no payload has arrived. */
  lemma HeaderOnly(p: seq<byte>)
    requires |p| <= 21
    ensures LengthArea(p) == [] && PayloadLength(p) == 0 && AfterLength(p) == [] && Body(p) == [] && AdData(p) == []
    ensures LogicalIndex(p) == |p| && PayloadCount(p) == 0 && !ScanLengthMismatch(p)
    ensures NonConnOf(p) == NewNonConnInd() && ScanReqOf(p) == NewScanReq()
  {
  }

  /** The first byte determines nothing: the headers of a one-byte frame
      are the decoder's starting packet. */
  lemma FirstByte(s: seq<byte>)
    requires |s| == 1
    ensures BaseOf(s) == NewPacket()
  {
    AtIndex(s, 2); AtIndex(s, 3); AtIndex(s, 4); AtIndex(s, 5);
    AtIndex(s, 8); AtIndex(s, 9); AtIndex(s, 10); AtIndex(s, 11);
    AtIndex(s, 12); AtIndex(s, 13); AtIndex(s, 14); AtIndex(s, 15);
    AtIndex(s, 16); AtIndex(s, 17); AtIndex(s, 18); AtIndex(s, 19);
  }

  /** The empty frame decodes to the starting packet marked valid. */
  lemma EmptyFrame(s: seq<byte>)
    requires |s| == 0
    ensures PacketOf(s) == NewPacket().(valid := true)
  {
    EmptyBase(s);
  }

  lemma EmptyBase(s: seq<byte>)
    requires |s| == 0
    ensures BaseOf(s) == NewPacket()
  {
  }

  // ---------------------------------------------------------------------
  // One header byte: each of positions 0 to 20 sets the field it belongs
  // to and leaves every other field as it was.

  /** Positions 1 and 6 carry nothing the decoder keeps. */
  lemma SkippedHeaderByte(p: seq<byte>, b: byte)
    requires |p| == 1 || |p| == 6
    ensures BaseOf(p + [b]) == BaseOf(p)
  {
    AtSnoc(p, b);
  }

  lemma ProtocolVersionByte(p: seq<byte>, b: byte)
    requires |p| == 2
    ensures BaseOf(p + [b]) == BaseOf(p).(protocolVersion := b)
  {
    AtSnoc(p, b);
  }

  /** A little-endian 16-bit field at positions `i` and `i + 1`, one byte
      more of it read: the new byte is OR-ed in at its weight. */
  lemma LittleEndian16Snoc(p: seq<byte>, b: byte, i: nat)
    requires |p| == i || |p| == i + 1
    ensures LittleEndian16(At(p + [b], i), At(p + [b], i + 1)) ==
      Or16(LittleEndian16(At(p, i), At(p, i + 1)), Shifted(b, |p| - i))
  {
    AtSnoc(p, b);
    AtAll(p);
    if |p| == i + 1 {
      OrAt8(At(p, i), b);
    }
  }

  /** The same for a 32-bit field at positions `i` to `i + 3`: the bytes
      above the new one are still zero, so OR-ing it in adds it. */
  lemma LittleEndian32Snoc(p: seq<byte>, b: byte, i: nat)
    requires i <= |p| <= i + 3
    ensures Word32At(p + [b], i) == Or32(Word32At(p, i), Shifted(b, |p| - i))
  {
    var q := p + [b];
    AtIndex(p, i); AtIndex(p, i + 1); AtIndex(p, i + 2); AtIndex(p, i + 3);
    AtIndex(q, i); AtIndex(q, i + 1); AtIndex(q, i + 2); AtIndex(q, i + 3);
    Word32Next(At(p, i), At(p, i + 1), At(p, i + 2), b, |p| - i);
  }

  /** The arithmetic behind it: byte `k` set to `b` with the bytes above it
      zero. */
  lemma Word32Next(a0: byte, a1: byte, a2: byte, b: byte, k: nat)
    requires k <= 3
    ensures k == 0 ==> LittleEndian32(LittleEndian16(b, 0), 0) == Or32(0, Shifted(b, 0))
    ensures k == 1 ==> LittleEndian32(LittleEndian16(a0, b), 0) == Or32(LittleEndian32(LittleEndian16(a0, 0), 0), Shifted(b, 1))
    ensures k == 2 ==> (LittleEndian32(LittleEndian16(a0, a1), LittleEndian16(b, 0)) ==
      Or32(LittleEndian32(LittleEndian16(a0, a1), 0), Shifted(b, 2)))
    ensures k == 3 ==> (LittleEndian32(LittleEndian16(a0, a1), LittleEndian16(a2, b)) ==
      Or32(LittleEndian32(LittleEndian16(a0, a1), LittleEndian16(a2, 0)), Shifted(b, 3)))
  {
    if k == 1 {
      OrAt8(a0, b);
    } else if k == 2 {
      OrAt16(LittleEndian16(a0, a1), b);
    } else if k == 3 {
      OrAt24(LittleEndian16(a0, a1) + 0x1_0000 * a2 as int, b);
    }
  }

  lemma PacketCounterByte(p: seq<byte>, b: byte)
    requires |p| == 3 || |p| == 4
    ensures BaseOf(p + [b]) == BaseOf(p).(packetCounter := Or16(BaseOf(p).packetCounter, Shifted(b, |p| - 3)))
  {
    AtSnoc(p, b);
    LittleEndian16Snoc(p, b, 3);
  }

  lemma PacketIdByte(p: seq<byte>, b: byte)
    requires |p| == 5
    ensures BaseOf(p + [b]) == BaseOf(p).(packetId := b)
  {
    AtSnoc(p, b);
  }

  /** The flags byte: CRC status and PHY always, the rest as an advertising
      or a data header according to the packet id already read. */
  lemma FlagsByte(p: seq<byte>, b: byte)
    requires |p| == 7
    ensures var h := BaseOf(p).packetHeader.(crcOk := Bit(b, 0), phy := Bits(b, 4, 3));
      BaseOf(p + [b]).packetHeader ==
        if BaseOf(p).packetId == EVENT_PACKET_DATA_PDU then h.(dataHeader := Some(PacketHeaderData(Bit(b, 1), Bit(b, 2), Bit(b, 3))))
        else if BaseOf(p).packetId == EVENT_PACKET_ADV_PDU then h.(advHeader := Some(PacketHeaderAdv(Bits(b, 1, 2), Bit(b, 3))))
        else h
    ensures BaseOf(p + [b]) == BaseOf(p).(packetHeader := BaseOf(p + [b]).packetHeader)
  {
    AtSnoc(p, b);
    AtIndex(p, 5);
  }

  lemma ChannelByte(p: seq<byte>, b: byte)
    requires |p| == 8
    ensures BaseOf(p + [b]) == BaseOf(p).(packetHeader := BaseOf(p).packetHeader.(channelIndex := b))
  {
    AtSnoc(p, b);
  }

  lemma RssiByte(p: seq<byte>, b: byte)
    requires |p| == 9
    ensures BaseOf(p + [b]) == BaseOf(p).(packetHeader := BaseOf(p).packetHeader.(rssi := 0 - b as int))
  {
    AtSnoc(p, b);
  }

  lemma EventCounterByte(p: seq<byte>, b: byte)
    requires |p| == 10 || |p| == 11
    ensures var c := BaseOf(p).packetHeader.eventCounter;
      BaseOf(p + [b]) == BaseOf(p).(packetHeader := BaseOf(p).packetHeader.(eventCounter := Or16(c, Shifted(b, |p| - 10))))
  {
    AtSnoc(p, b);
    LittleEndian16Snoc(p, b, 10);
  }

  lemma DeltaTimeByte(p: seq<byte>, b: byte)
    requires 12 <= |p| <= 15
    ensures var d := BaseOf(p).packetHeader.deltaTimeUs;
      BaseOf(p + [b]) == BaseOf(p).(packetHeader := BaseOf(p).packetHeader.(deltaTimeUs := Or32(d, Shifted(b, |p| - 12))))
  {
    AtSnoc(p, b);
    LittleEndian32Snoc(p, b, 12);
  }

  lemma AccessAddressByte(p: seq<byte>, b: byte)
    requires 16 <= |p| <= 19
    ensures var a := BaseOf(p).llLayerData.accessAddress;
      BaseOf(p + [b]) == BaseOf(p).(llLayerData := BaseOf(p).llLayerData.(accessAddress := Or32(a, Shifted(b, |p| - 16))))
  {
    AtSnoc(p, b);
    LittleEndian32Snoc(p, b, 16);
  }

  /** The first byte of the PDU header. */
  lemma PduHeaderByte(p: seq<byte>, b: byte)
    requires |p| == 20
    ensures BaseOf(p + [b]) == BaseOf(p).(llLayerData := BaseOf(p).llLayerData.(
      pduType := Bits(b, 0, 4),
      channelSelect := Bits(b, 5, 1),
      txAddressPublic := !Bit(b, 6),
      rxAddressPublic := !Bit(b, 7)))
    ensures PduType(p + [b]) == Bits(b, 0, 4)
  {
    AtSnoc(p, b);
  }

  lemma {:induction false} LeadingZerosAppend(t: seq<byte>, u: seq<byte>)
    requires LeadingZeros(t) < |t|
    ensures LeadingZeros(t + u) == LeadingZeros(t)
  {
    if t[0] == 0 {
      assert (t + u)[1..] == t[1..] + u;
      LeadingZerosAppend(t[1..], u);
    }
  }

  lemma {:induction false} LeadingZerosAllZero(t: seq<byte>, b: byte)
    requires LeadingZeros(t) == |t|
    ensures LeadingZeros(t + [b]) == |t| + (if b == 0 then 1 else 0)
  {
    if |t| > 0 {
      assert (t + [b])[1..] == t[1..] + [b];
      LeadingZerosAllZero(t[1..], b);
    }
  }

  /** Reading a byte at position 21 or later: the first nonzero one becomes
      the length, later ones extend what follows it. */
  lemma LengthSnoc(p: seq<byte>, b: byte)
    requires |p| >= 21
    ensures !HasLength(p) ==>
      (HasLength(p + [b]) <==> b != 0) && PayloadLength(p + [b]) == b && AfterLength(p + [b]) == []
    ensures HasLength(p) ==>
      HasLength(p + [b]) && PayloadLength(p + [b]) == PayloadLength(p) && AfterLength(p + [b]) == AfterLength(p) + [b]
    ensures Body(p + [b]) == if |AfterLength(p)| > 0 then Body(p) + [b] else []
    ensures |AfterLength(p + [b])| == if HasLength(p) then |AfterLength(p)| + 1 else 0
  {
    var t := LengthArea(p);
    assert LengthArea(p + [b]) == t + [b];
    if HasLength(p) {
      LeadingZerosAppend(t, [b]);
      var n := LeadingZeros(t);
      assert (t + [b])[n + 1..] == t[n + 1..] + [b];
      if |AfterLength(p)| > 0 {
        assert (AfterLength(p) + [b])[1..] == AfterLength(p)[1..] + [b];
      }
    } else {
      LeadingZerosAllZero(t, b);
    }
  }

  lemma Mac6Snoc(body: seq<byte>, b: byte)
    ensures |body| < 6 ==> Mac6(body + [b]) == Mac6(body)[5 - |body| := b]
    ensures |body| >= 6 ==> Mac6(body + [b]) == Mac6(body)
  {
    AtSnoc(body, b);
  }

  /** A payload byte after the address joins the advertising data exactly
      when the declared length has room for it. */
  lemma AdWindowSnoc(body: seq<byte>, len: byte, b: byte)
    requires |body| >= 6
    ensures AdWindow(body + [b], len) ==
      if 6 + |AdWindow(body, len)| < len then AdWindow(body, len) + [b] else AdWindow(body, len)
  {
    var body' := body + [b];
    if len > 6 && |body| < len {
      assert body'[6..Min(|body'|, len)] == body[6..] + [b];
      if |body| > 6 {
        assert AdWindow(body, len) == body[6..];
      }
    } else if len > 6 && |body| > 6 {
      assert body'[6..Min(|body'|, len)] == body[6..Min(|body|, len)];
    }
  }

  /** Nothing after position 20 changes the headers. */
  lemma BaseOfPrefix(s: seq<byte>, n: nat)
    requires 21 <= n <= |s|
    ensures BaseOf(s[..n]) == BaseOf(s)
    ensures PduType(s[..n]) == PduType(s)
  {
    AtAll(s);
    AtAll(s[..n]);
    assert forall i: nat :: i <= 20 ==> At(s[..n], i) == At(s, i);
  }

  /** One more byte after position 20 leaves the headers as they were. */
  lemma BaseOfSnoc(p: seq<byte>, b: byte)
    requires |p| >= 21
    ensures BaseOf(p + [b]) == BaseOf(p) && PduType(p + [b]) == PduType(p)
  {
    assert (p + [b])[..|p|] == p;
    BaseOfPrefix(p + [b], |p|);
  }

  /** Bytes appended after the length has arrived extend what follows it. */
  lemma ExtendAfterLength(s: seq<byte>, t: seq<byte>)
    requires |s| >= 21 && HasLength(s)
    ensures HasLength(s + t) && PayloadLength(s + t) == PayloadLength(s)
    ensures AfterLength(s + t) == AfterLength(s) + t
  {
    var area := LengthArea(s);
    var n := LeadingZeros(area);
    LengthAreaAppend(s, t);
    LeadingZerosAppend(area, t);
    assert LengthArea(s + t)[n] == area[n];
    DropAppend(area, t, n + 1);
  }

  lemma LengthAreaAppend(s: seq<byte>, t: seq<byte>)
    requires |s| >= 21
    ensures LengthArea(s + t) == LengthArea(s) + t
  {
    assert (s + t)[21..] == s[21..] + t;
  }

  lemma DropAppend(a: seq<byte>, t: seq<byte>, k: nat)
    requires k <= |a|
    ensures (a + t)[k..] == a[k..] + t
  {
  }

  /** Once detected, a length mismatch stays detected. */
  lemma MismatchPrefix(s: seq<byte>, n: nat)
    requires 21 <= n <= |s|
    requires ScanLengthMismatch(s[..n])
    ensures ScanLengthMismatch(s)
  {
    var p, t := s[..n], s[n..];
    assert s == p + t;
    BaseOfPrefix(s, n);
    ExtendAfterLength(p, t);
  }

  /** A byte read while the decoder's index is between 22 and 27: one of
      the six address bytes. */
  lemma MacByte(p: seq<byte>, b: byte)
    requires 22 <= LogicalIndex(p) <= 27
    ensures |Body(p)| == LogicalIndex(p) - 22
    ensures Body(p + [b]) == Body(p) + [b]
    ensures LogicalIndex(p + [b]) == LogicalIndex(p) + 1
    ensures PayloadLength(p + [b]) == PayloadLength(p) && PduType(p + [b]) == PduType(p)
    ensures AdData(p) == [] && AdData(p + [b]) == []
    ensures PayloadCount(p + [b]) == PayloadCount(p) + 1
    ensures ScanLengthMismatch(p + [b]) == ScanLengthMismatch(p)
  {
    LengthSnoc(p, b);
    AtSnoc(p, b);
  }

  /** Before any advertising data the records hold only the addresses. */
  lemma RecordsWithoutData(p: seq<byte>)
    requires AdData(p) == []
    ensures NonConnOf(p) == NewNonConnInd().(advertisingMac := Mac6(Body(p)))
    ensures ScanReqOf(p) == ScanReq(Mac6(Body(p)), ZERO_MAC)
  {
  }

  /** An address byte lands in the address of either record, at the
      position counted from the end. */
  lemma AddressRecords(p: seq<byte>, b: byte)
    requires 22 <= LogicalIndex(p) <= 27
    ensures var i := 27 - LogicalIndex(p);
      && NonConnOf(p + [b]) == NonConnOf(p).(advertisingMac := NonConnOf(p).advertisingMac[i := b])
      && ScanReqOf(p + [b]) == ScanReqOf(p).(scanningMac := ScanReqOf(p).scanningMac[i := b])
  {
    MacByte(p, b);
    RecordsWithoutData(p);
    RecordsWithoutData(p + [b]);
    Mac6Snoc(Body(p), b);
  }

  /** A byte read after the address while the declared length has room:
      it joins the advertising data. */
  lemma PayloadByte(p: seq<byte>, b: byte)
    requires PayloadCount(p) < PayloadLength(p)
    requires LogicalIndex(p) != 21 && !(22 <= LogicalIndex(p) <= 27)
    ensures LogicalIndex(p) >= 28 && |AdData(p)| == |Body(p)| - 6
    ensures Body(p + [b]) == Body(p) + [b]
    ensures AdData(p + [b]) == AdData(p) + [b]
    ensures Mac6(Body(p + [b])) == Mac6(Body(p))
    ensures LogicalIndex(p + [b]) == LogicalIndex(p) + 1
    ensures PayloadLength(p + [b]) == PayloadLength(p) && PduType(p + [b]) == PduType(p)
    ensures PayloadCount(p + [b]) == PayloadCount(p) + 1
    ensures ScanLengthMismatch(p + [b]) == ScanLengthMismatch(p)
  {
    assert HasLength(p);
    LengthSnoc(p, b);
    AtSnoc(p, b);
    var body := Body(p);
    var len := PayloadLength(p);
    Mac6Snoc(body, b);
    AdWindowSnoc(body, len, b);
    if |body| > 6 && len > 6 {
      assert |AdData(p)| == Min(|body|, len) - 6;
    }
  }

  /** A payload byte within the declared length moves the ADV_NONCONN_IND
      reading by one step of the AD-structure state machine. */
  lemma NonConnByte(p: seq<byte>, b: byte)
    requires PayloadCount(p) < PayloadLength(p)
    requires LogicalIndex(p) != 21 && !(22 <= LogicalIndex(p) <= 27)
    ensures (NonConnOf(p + [b]), Pending(AdData(p + [b]))) == AdStep(NonConnOf(p), Pending(AdData(p)), b)
  {
    PayloadByte(p, b);
    AdSnoc(NewNonConnInd().(advertisingMac := Mac6(Body(p))), AdData(p), b);
  }

  /** A payload byte within the declared length of a SCAN_REQ is the next
      byte of the advertiser's address. */
  lemma ScanAdvertiserByte(p: seq<byte>, b: byte)
    requires PayloadCount(p) < PayloadLength(p) == SCAN_REQ_PAYLOAD_LENGTH
    requires LogicalIndex(p) != 21 && !(22 <= LogicalIndex(p) <= 27)
    ensures |AdData(p)| < 6 && LogicalIndex(p) == 28 + |AdData(p)|
    ensures ScanReqOf(p + [b]) == ScanReqOf(p).(advertisingMac := ScanReqOf(p).advertisingMac[5 - |AdData(p)| := b])
  {
    PayloadByte(p, b);
    Mac6Snoc(AdData(p), b);
  }

  /** A payload byte beyond the declared length: the decoder reads past
      it, and only its byte index moves. */
  lemma OtherByte(p: seq<byte>, b: byte)
    requires !(PayloadCount(p) < PayloadLength(p))
    requires LogicalIndex(p) >= 28
    ensures LogicalIndex(p + [b]) == LogicalIndex(p) + 1
    ensures PayloadLength(p + [b]) == PayloadLength(p)
    ensures PayloadCount(p + [b]) == PayloadCount(p)
    ensures ScanLengthMismatch(p + [b]) == ScanLengthMismatch(p)
  {
    BaseOfSnoc(p, b);
    LengthSnoc(p, b);
    OtherByteData(p, b);
  }

  /** Such a byte adds nothing to the payload records. */
  lemma OtherByteRecords(p: seq<byte>, b: byte)
    requires !(PayloadCount(p) < PayloadLength(p))
    requires LogicalIndex(p) >= 28
    ensures NonConnOf(p + [b]) == NonConnOf(p) && Pending(AdData(p + [b])) == Pending(AdData(p))
    ensures ScanReqOf(p + [b]) == ScanReqOf(p)
  {
    OtherByteData(p, b);
  }

  lemma OtherByteData(p: seq<byte>, b: byte)
    requires !(PayloadCount(p) < PayloadLength(p))
    requires LogicalIndex(p) >= 28
    ensures AdData(p + [b]) == AdData(p) && Mac6(Body(p + [b])) == Mac6(Body(p))
    ensures |Body(p + [b])| == |Body(p)| + 1 && PayloadLength(p + [b]) == PayloadLength(p)
  {
    LengthSnoc(p, b);
    var body := Body(p);
    var len := PayloadLength(p);
    Mac6Snoc(body, b);
    AdWindowSnoc(body, len, b);
    if |body| > 6 && len > 6 {
      assert |AdData(p)| == Min(|body|, len) - 6;
    }
  }
}
