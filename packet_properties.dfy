/** What a decoded frame says, stated over the frame's bytes: when the
    packet is valid, where each header field comes from, which optional
    parts can be present together, the order of the address bytes, and how
    the advertising data is read. */
module PacketProperties {
  import opened Prelude
  import opened Protocol
  import opened Advertising
  import opened PacketFormat

  // ---------------------------------------------------------------------
  // Validity

  /** A packet is invalid exactly when the decoder returns early: the first
      byte is not the header length, or a SCAN_REQ declares a length other
      than 12 and is followed by one more byte. */
  lemma ValidIff(s: seq<byte>)
    ensures PacketOf(s).valid <==> !Halts(s)
  {
  }

  /** In particular the empty frame and every frame cut short before its
      payload length are valid, as long as they start with the header length. */
  lemma TruncatedFrameValid(s: seq<byte>)
    requires |s| <= 22 && (|s| > 0 ==> s[0] == HEADER_LENGTH)
    ensures PacketOf(s).valid
  {
    if |s| <= 21 {
      HeaderOnly(s);
    }
  }

  /** A first byte other than the header length gives the empty packet,
      whatever follows. */
  lemma WrongHeaderLength(s: seq<byte>)
    requires |s| > 0 && s[0] != HEADER_LENGTH
    ensures PacketOf(s) == NewPacket()
  {
  }

  // ---------------------------------------------------------------------
  // The sniffer header

  /** The counters: the packet counter from bytes 3 and 4 and the event
      counter from bytes 10 and 11, least significant first. */
  lemma Counters16(s: seq<byte>)
    requires |s| >= 12 && s[0] == HEADER_LENGTH
    ensures PacketOf(s).packetCounter == s[3] as int + 0x100 * s[4] as int
    ensures PacketOf(s).packetHeader.eventCounter == s[10] as int + 0x100 * s[11] as int
  {
    AtIndex(s, 3); AtIndex(s, 4); AtIndex(s, 10); AtIndex(s, 11);
  }

  /** The 32-bit fields: the time since the previous packet from bytes 12
      to 15 and the access address from bytes 16 to 19, least significant
      first. */
  lemma Counters32(s: seq<byte>)
    requires |s| >= 20 && s[0] == HEADER_LENGTH
    ensures PacketOf(s).packetHeader.deltaTimeUs == s[12] as int + 0x100 * s[13] as int + 0x1_0000 * s[14] as int + 0x100_0000 * s[15] as int
    ensures PacketOf(s).llLayerData.accessAddress == s[16] as int + 0x100 * s[17] as int + 0x1_0000 * s[18] as int + 0x100_0000 * s[19] as int
  {
    AtIndex(s, 12); AtIndex(s, 13); AtIndex(s, 14); AtIndex(s, 15);
    AtIndex(s, 16); AtIndex(s, 17); AtIndex(s, 18); AtIndex(s, 19);
  }

  /** The single-byte fields: protocol version (byte 2), packet id (byte 5),
      channel (byte 8), and the RSSI, the negated byte 9. The header's own
      protocol version is never written. */
  lemma ByteFields(s: seq<byte>)
    requires |s| >= 10 && s[0] == HEADER_LENGTH
    ensures PacketOf(s).protocolVersion == s[2]
    ensures PacketOf(s).packetId == s[5]
    ensures PacketOf(s).packetHeader.channelIndex == s[8]
    ensures PacketOf(s).packetHeader.rssi == -(s[9] as int)
    ensures PacketOf(s).packetHeader.protocolVersion == 0
  {
    AtIndex(s, 2); AtIndex(s, 5); AtIndex(s, 8); AtIndex(s, 9);
  }

  /** Whatever the frame, the RSSI lies between -255 and 0. */
  lemma RssiRange(s: seq<byte>)
    ensures -255 <= PacketOf(s).packetHeader.rssi <= 0
  {
  }

  /** The flags byte 7: CRC status in bit 0, PHY in bits 4 to 6. */
  lemma FlagsFields(s: seq<byte>)
    requires |s| >= 8 && s[0] == HEADER_LENGTH
    ensures PacketOf(s).packetHeader.crcOk == Bit(s[7], 0)
    ensures PacketOf(s).packetHeader.phy == Bits(s[7], 4, 3) && PacketOf(s).packetHeader.phy < 8
  {
  }

  /** The link-layer header byte 20: the PDU type in bits 0 to 3, ChSel in
      bit 5, and an address is public when its TxAdd (bit 6) or RxAdd
      (bit 7) bit is clear. */
  lemma PduHeaderFields(s: seq<byte>)
    requires |s| >= 21 && s[0] == HEADER_LENGTH
    ensures PacketOf(s).llLayerData.pduType == Bits(s[20], 0, 4) < 16
    ensures PacketOf(s).llLayerData.channelSelect == Bits(s[20], 5, 1) < 2
    ensures PacketOf(s).llLayerData.txAddressPublic == !Bit(s[20], 6)
    ensures PacketOf(s).llLayerData.rxAddressPublic == !Bit(s[20], 7)
  {
  }

  // ---------------------------------------------------------------------
  // Which optional parts are present

  /** An advertising header only for packet id 2, a data header only for
      packet id 6, and each one whenever the flags byte has arrived. */
  lemma HeaderKinds(s: seq<byte>)
    requires |s| > 0 && s[0] == HEADER_LENGTH
    ensures var h := PacketOf(s).packetHeader;
      && (h.advHeader.Some? <==> |s| > 7 && PacketOf(s).packetId == EVENT_PACKET_ADV_PDU)
      && (h.dataHeader.Some? <==> |s| > 7 && PacketOf(s).packetId == EVENT_PACKET_DATA_PDU)
  {
    AtIndex(s, 5);
  }

  /** Never both headers. */
  lemma HeadersExclusive(s: seq<byte>)
    ensures !(PacketOf(s).packetHeader.advHeader.Some? && PacketOf(s).packetHeader.dataHeader.Some?)
  {
  }

  /** On a valid packet the ADV_NONCONN_IND record is present exactly for
      PDU type 2 and the SCAN_REQ record exactly for PDU type 3; an invalid
      packet carries neither. */
  lemma RecordsByPduType(s: seq<byte>)
    ensures var l := PacketOf(s).llLayerData;
      && (PacketOf(s).valid ==> (l.nonConnInd.Some? <==> l.pduType == ADV_TYPE_ADV_NONCONN_IND))
      && (PacketOf(s).valid ==> (l.scanReq.Some? <==> l.pduType == ADV_TYPE_SCAN_REQ))
      && (!PacketOf(s).valid ==> l.nonConnInd.None? && l.scanReq.None?)
  {
  }

  /** Never both records. */
  lemma RecordsExclusive(s: seq<byte>)
    ensures !(PacketOf(s).llLayerData.nonConnInd.Some? && PacketOf(s).llLayerData.scanReq.Some?)
  {
  }

  // ---------------------------------------------------------------------
  // The length area: zero padding, the length, the byte after it

  /** Zero bytes at the start of the length area are skipped one by one. */
  lemma {:induction false} LeadingZerosPadding(z: seq<byte>, t: seq<byte>)
    requires forall i :: 0 <= i < |z| ==> z[i] == 0
    ensures LeadingZeros(z + t) == |z| + LeadingZeros(t)
    decreases |z|
  {
    if |z| == 0 {
      assert z + t == t;
    } else {
      assert (z + t)[0] == 0;
      assert (z + t)[1..] == z[1..] + t;
      LeadingZerosPadding(z[1..], t);
    }
  }

  /** Two frames whose length areas differ by leading zeros agree on the
      declared length and on everything after it. */
  lemma PaddedLengthArea(a: seq<byte>, b: seq<byte>, z: seq<byte>)
    requires forall i :: 0 <= i < |z| ==> z[i] == 0
    requires LengthArea(a) == z + LengthArea(b)
    ensures HasLength(a) == HasLength(b)
    ensures PayloadLength(a) == PayloadLength(b) && AfterLength(a) == AfterLength(b)
  {
    var t := LengthArea(b);
    LeadingZerosPadding(z, t);
    var n := LeadingZeros(t);
    if n < |t| {
      DropPrefix(z, t, n + 1);
    }
  }

  /** Everything but the headers is a function of the declared length, of
      whether the byte after it has arrived, of the payload's address and of
      the advertising data. */
  lemma SamePayload(a: seq<byte>, b: seq<byte>)
    requires |a| >= 21 && |b| >= 21 && a[0] == b[0] && BaseOf(a) == BaseOf(b) && PduType(a) == PduType(b)
    requires PayloadLength(a) == PayloadLength(b) && (|AfterLength(a)| > 0 <==> |AfterLength(b)| > 0)
    requires AdData(a) == AdData(b) && Mac6(Body(a)) == Mac6(Body(b))
    ensures PacketOf(a) == PacketOf(b)
  {
    SameRecords(a, b);
    assert ScanLengthMismatch(a) == ScanLengthMismatch(b);
  }

  lemma SameRecords(a: seq<byte>, b: seq<byte>)
    requires AdData(a) == AdData(b) && Mac6(Body(a)) == Mac6(Body(b))
    ensures NonConnOf(a) == NonConnOf(b) && ScanReqOf(a) == ScanReqOf(b)
  {
  }

  /** The index-21 rewind: any run of zero bytes where the payload length is
      expected is absorbed, and the frame decodes as if it were not there. */
  lemma ZeroPaddingAbsorbed(h: seq<byte>, z: seq<byte>, t: seq<byte>)
    requires |h| == 21
    requires forall i :: 0 <= i < |z| ==> z[i] == 0
    ensures PacketOf(h + z + t) == PacketOf(h + t)
  {
    var a := h + z + t;
    var b := h + t;
    assert a[..21] == h && b[..21] == h;
    assert LengthArea(a) == z + LengthArea(b) by {
      assert a[21..] == z + t;
      assert b[21..] == t;
    }
    PaddedLengthArea(a, b, z);
    BaseOfPrefix(a, 21);
    BaseOfPrefix(b, 21);
    SamePayload(a, b);
  }

  /** While zero padding is read the decoder's byte index stays at 21. */
  lemma PaddingKeepsIndex(h: seq<byte>, z: seq<byte>)
    requires |h| == 21
    requires forall i :: 0 <= i < |z| ==> z[i] == 0
    ensures LogicalIndex(h + z) == 21 && PayloadLength(h + z) == 0
  {
    assert (h + z)[21..] == z + [];
    PaddedLengthArea(h + z, h, z);
  }

  /** A frame laid out as headers, a nonzero length `len`, the byte after it,
      and the payload. */
  lemma Layout(h: seq<byte>, len: byte, x: byte, body: seq<byte>)
    requires |h| == 21 && len != 0
    ensures var s := h + [len, x] + body;
      && HasLength(s) && PayloadLength(s) == len && AfterLength(s) == [x] + body && Body(s) == body
      && BaseOf(s) == BaseOf(h) && PduType(s) == PduType(h) && s[0] == h[0]
  {
    var s := h + [len, x] + body;
    assert s[..21] == h;
    assert s[21..] == [len, x] + body;
    AreaLayout(s, len, x, body);
    BaseOfPrefix(s, 21);
  }

  lemma AreaLayout(s: seq<byte>, len: byte, x: byte, body: seq<byte>)
    requires |s| >= 21 && s[21..] == [len, x] + body && len != 0
    ensures HasLength(s) && PayloadLength(s) == len && AfterLength(s) == [x] + body && Body(s) == body
  {
    assert LengthArea(s) == [len, x] + body;
    assert LeadingZeros(LengthArea(s)) == 0;
    assert ([len, x] + body)[1..] == [x] + body;
    assert ([x] + body)[1..] == body;
  }

  /** The byte after the length is read only by the SCAN_REQ length check:
      for any other PDU type its value makes no difference. */
  lemma SkippedByteIgnored(h: seq<byte>, len: byte, x: byte, y: byte, body: seq<byte>)
    requires |h| == 21 && len != 0 && PduType(h) != ADV_TYPE_SCAN_REQ
    ensures PacketOf(h + [len, x] + body) == PacketOf(h + [len, y] + body)
  {
    Layout(h, len, x, body);
    Layout(h, len, y, body);
  }

  /** A SCAN_REQ whose length byte is followed by at least one more byte is
      valid exactly when that length is 12. */
  lemma ScanLengthChecked(h: seq<byte>, len: byte, x: byte, body: seq<byte>)
    requires |h| == 21 && h[0] == HEADER_LENGTH && len != 0 && PduType(h) == ADV_TYPE_SCAN_REQ
    ensures PacketOf(h + [len, x] + body).valid <==> len == SCAN_REQ_PAYLOAD_LENGTH
  {
    Layout(h, len, x, body);
  }

  // ---------------------------------------------------------------------
  // Addresses

  /** Six address bytes sent least significant first, in display order. */
  function Reversed6(a: seq<byte>): Mac
    requires |a| == 6
  {
    [a[5], a[4], a[3], a[2], a[1], a[0]]
  }

  lemma Mac6Reversed(a: seq<byte>, rest: seq<byte>)
    requires |a| == 6
    ensures Mac6(a + rest) == Reversed6(a)
  {
    AtIndex(a + rest, 0); AtIndex(a + rest, 1); AtIndex(a + rest, 2);
    AtIndex(a + rest, 3); AtIndex(a + rest, 4); AtIndex(a + rest, 5);
  }

  /** The advertiser's address of an ADV_NONCONN_IND: the first six payload
      bytes, reversed. */
  lemma NonConnAddress(h: seq<byte>, len: byte, x: byte, a: seq<byte>, rest: seq<byte>)
    requires |h| == 21 && h[0] == HEADER_LENGTH && len != 0 && PduType(h) == ADV_TYPE_ADV_NONCONN_IND && |a| == 6
    ensures var l := PacketOf(h + [len, x] + a + rest).llLayerData;
      l.nonConnInd.Some? && l.nonConnInd.value.advertisingMac == Reversed6(a)
  {
    assert h + [len, x] + a + rest == h + [len, x] + (a + rest);
    Layout(h, len, x, a + rest);
    Mac6Reversed(a, rest);
  }

  /** Both addresses of a SCAN_REQ: the scanner's from the first six
      payload bytes and the advertiser's from the next six, each reversed. */
  lemma ScanReqAddresses(h: seq<byte>, x: byte, sa: seq<byte>, aa: seq<byte>, rest: seq<byte>)
    requires |h| == 21 && h[0] == HEADER_LENGTH && PduType(h) == ADV_TYPE_SCAN_REQ && |sa| == 6 && |aa| == 6
    ensures PacketOf(h + [SCAN_REQ_PAYLOAD_LENGTH, x] + sa + aa + rest).llLayerData.scanReq
      == Some(ScanReq(Reversed6(sa), Reversed6(aa)))
  {
    ScanReqLayout(h, x, sa, aa, rest);
    ScanReqRecord(h + [SCAN_REQ_PAYLOAD_LENGTH, x] + sa + aa + rest);
  }

  /** A SCAN_REQ that decodes carries the record read from its payload. */
  lemma ScanReqRecord(s: seq<byte>)
    requires |s| > 0 && s[0] == HEADER_LENGTH && !ScanLengthMismatch(s) && PduType(s) == ADV_TYPE_SCAN_REQ
    ensures PacketOf(s).llLayerData.scanReq == Some(ScanReqOf(s))
  {
  }

  lemma ScanReqLayout(h: seq<byte>, x: byte, sa: seq<byte>, aa: seq<byte>, rest: seq<byte>)
    requires |h| == 21 && h[0] == HEADER_LENGTH && PduType(h) == ADV_TYPE_SCAN_REQ && |sa| == 6 && |aa| == 6
    ensures var s := h + [SCAN_REQ_PAYLOAD_LENGTH, x] + sa + aa + rest;
      && |s| > 0 && s[0] == HEADER_LENGTH && !ScanLengthMismatch(s) && PduType(s) == ADV_TYPE_SCAN_REQ
      && ScanReqOf(s) == ScanReq(Reversed6(sa), Reversed6(aa))
  {
    var body := sa + aa + rest;
    var s := h + [SCAN_REQ_PAYLOAD_LENGTH, x] + sa + aa + rest;
    assert s == h + [SCAN_REQ_PAYLOAD_LENGTH, x] + body;
    Layout(h, SCAN_REQ_PAYLOAD_LENGTH, x, body);
    ScanReqFields(s, sa, aa, rest);
  }

  lemma ScanReqFields(s: seq<byte>, sa: seq<byte>, aa: seq<byte>, rest: seq<byte>)
    requires |sa| == 6 && |aa| == 6 && Body(s) == sa + aa + rest && PayloadLength(s) == SCAN_REQ_PAYLOAD_LENGTH
    ensures ScanReqOf(s) == ScanReq(Reversed6(sa), Reversed6(aa))
  {
    ScannerAddress(sa, aa, rest);
    SecondAddress(sa, aa, rest);
    Mac6Exact(aa);
  }

  lemma ScannerAddress(sa: seq<byte>, aa: seq<byte>, rest: seq<byte>)
    requires |sa| == 6
    ensures Mac6(sa + aa + rest) == Reversed6(sa)
  {
    assert sa + aa + rest == sa + (aa + rest);
    Mac6Reversed(sa, aa + rest);
  }

  lemma Mac6Exact(a: seq<byte>)
    requires |a| == 6
    ensures Mac6(a) == Reversed6(a)
  {
    Mac6Reversed(a, []);
    assert a + [] == a;
  }

  /** With the declared length 12, the advertising data is the second
      address. */
  lemma SecondAddress(sa: seq<byte>, aa: seq<byte>, rest: seq<byte>)
    requires |sa| == 6 && |aa| == 6
    ensures AdWindow(sa + aa + rest, SCAN_REQ_PAYLOAD_LENGTH) == aa
  {
    assert (sa + aa + rest)[6..12] == aa;
  }

  // ---------------------------------------------------------------------
  // The declared length

  lemma DropPrefix(z: seq<byte>, t: seq<byte>, k: nat)
    requires k <= |t|
    ensures (z + t)[|z| + k..] == t[k..]
    ensures k < |t| ==> (z + t)[|z| + k] == t[k]
  {
  }

  lemma Mac6Prefix(body: seq<byte>, t: seq<byte>)
    requires |body| >= 6
    ensures Mac6(body + t) == Mac6(body)
  {
    AtIndex(body + t, 0); AtIndex(body + t, 1); AtIndex(body + t, 2);
    AtIndex(body + t, 3); AtIndex(body + t, 4); AtIndex(body + t, 5);
    AtIndex(body, 0); AtIndex(body, 1); AtIndex(body, 2);
    AtIndex(body, 3); AtIndex(body, 4); AtIndex(body, 5);
  }

  lemma AdWindowPrefix(body: seq<byte>, len: byte, t: seq<byte>)
    requires |body| >= len
    ensures AdWindow(body + t, len) == AdWindow(body, len)
  {
    if len > 6 && |body| > 6 {
      assert (body + t)[6..Min(|body + t|, len)] == body[6..Min(|body|, len)];
    }
  }

  /** Once the address and the declared length are both used up, further
      bytes change nothing. */
  lemma BeyondLengthIgnored(s: seq<byte>, t: seq<byte>)
    requires |s| >= 21 && HasLength(s) && |Body(s)| >= 6 && |Body(s)| >= PayloadLength(s)
    ensures PacketOf(s + t) == PacketOf(s)
  {
    assert (s + t)[..|s|] == s;
    BaseOfPrefix(s + t, |s|);
    BeyondLengthParts(s, t);
    SamePayload(s + t, s);
  }

  lemma BeyondLengthParts(s: seq<byte>, t: seq<byte>)
    requires |s| >= 21 && HasLength(s) && |Body(s)| >= 6 && |Body(s)| >= PayloadLength(s)
    ensures PayloadLength(s + t) == PayloadLength(s) && |AfterLength(s + t)| > 0
    ensures AdData(s + t) == AdData(s) && Mac6(Body(s + t)) == Mac6(Body(s))
  {
    ExtendAfterLength(s, t);
    DropAppend(AfterLength(s), t, 1);
    assert Body(s + t) == Body(s) + t;
    Mac6Prefix(Body(s), t);
    AdWindowPrefix(Body(s), PayloadLength(s), t);
  }
}
