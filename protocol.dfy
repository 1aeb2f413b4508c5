/** The constants of the Nordic nRF sniffer UART protocol and of the BLE
    advertising channel that the decoders read, and the packet records the
    decoder fills in. Each record's "new" value is the all-zero / all-empty
    literal the decoder starts from. */
module Protocol {
  import opened Prelude

  // Framing bytes. An escaped literal travels as its value plus one.
  const SLIP_START: byte := 0xAB
  const SLIP_END: byte := 0xBC
  const SLIP_ESC: byte := 0xCD
  const SLIP_ESC_START: byte := SLIP_START + 1
  const SLIP_ESC_END: byte := SLIP_END + 1
  const SLIP_ESC_ESC: byte := SLIP_ESC + 1

  // Sniffer UART header.
  const PROTOVER_V1: byte := 1
  const HEADER_LENGTH: byte := 6
  const EVENT_PACKET_ADV_PDU: byte := 0x02
  const EVENT_PACKET_DATA_PDU: byte := 0x06
  const REQ_SCAN_CONT: byte := 0x07
  const SET_TEMPORARY_KEY: byte := 0x0C

  // Advertising PDU types (Bluetooth Core v5.4, Vol 6, Part B, section 2.3).
  const ADV_TYPE_ADV_NONCONN_IND: byte := 0x2
  const ADV_TYPE_SCAN_REQ: byte := 0x3

  /** The one link-layer payload length a SCAN_REQ may declare: the scanner's
      and the advertiser's addresses (section 2.3.2.1). */
  const SCAN_REQ_PAYLOAD_LENGTH: byte := 12

  // AD types (Core Specification Supplement, Part A, sections 1.3, 1.2, 1.5, 1.4).
  const AD_FLAGS: byte := 0x01
  const AD_COMPLETE_LOCAL_NAME: byte := 0x09
  const AD_TX_POWER_LEVEL: byte := 0x0A
  const AD_MANUFACTURER_SPECIFIC: byte := 0xFF

  /** A six-byte device address, stored in display order. */
  type Mac = s: seq<byte> | |s| == 6 witness [0, 0, 0, 0, 0, 0]

  const ZERO_MAC: Mac := [0, 0, 0, 0, 0, 0]

  datatype PacketHeaderAdv = PacketHeaderAdv(auxType: byte, addressResolved: bool)

  datatype PacketHeaderData = PacketHeaderData(directionToSlave: bool, encrypted: bool, micOk: bool)

  datatype PacketHeader = PacketHeader(
    protocolVersion: byte,
    crcOk: bool,
    advHeader: Option<PacketHeaderAdv>,
    dataHeader: Option<PacketHeaderData>,
    phy: byte,
    channelIndex: byte,
    rssi: i16,
    eventCounter: u16,
    deltaTimeUs: u32)

  datatype DataFlags = DataFlags(
    simultaneousHost: bool,
    simultaneousController: bool,
    brEdrSupport: bool,
    leGeneralDiscoverable: bool,
    leLimitedDiscoverable: bool)

  /** The local name, kept as the bytes that passed the UTF-8 check. */
  datatype CompleteLocalName = CompleteLocalName(deviceName: seq<byte>)

  datatype TxPowerLevel = TxPowerLevel(txPowerLevel: byte)

  datatype ManufacturerSpecificData = ManufacturerSpecificData(companyId: u16, data: seq<byte>)

  datatype NonConnInd = NonConnInd(
    advertisingMac: Mac,
    advertisingTypes: seq<byte>,
    flags: Option<DataFlags>,
    completeLocalName: Option<CompleteLocalName>,
    txPowerLevel: Option<TxPowerLevel>,
    manufacturerData: Option<ManufacturerSpecificData>)

  datatype ScanReq = ScanReq(scanningMac: Mac, advertisingMac: Mac)

  datatype LinkLayer = LinkLayer(
    accessAddress: u32,
    pduType: byte,
    channelSelect: byte,
    txAddressPublic: bool,
    rxAddressPublic: bool,
    nonConnInd: Option<NonConnInd>,
    scanReq: Option<ScanReq>)

  datatype Packet = Packet(
    valid: bool,
    protocolVersion: byte,
    packetCounter: u16,
    packetId: byte,
    packetHeader: PacketHeader,
    llLayerData: LinkLayer)

  /** `BlePacketHeader::new`: no optional header and every field zero. */
  function NewPacketHeader(): (h: PacketHeader)
    ensures h.advHeader == None && h.dataHeader == None && !h.crcOk
    ensures h.protocolVersion == 0 && h.phy == 0 && h.channelIndex == 0
    ensures h.rssi == 0 && h.eventCounter == 0 && h.deltaTimeUs == 0
  {
    PacketHeader(0, false, None, None, 0, 0, 0, 0, 0)
  }

  /** `BleLinkLayer::new`: no payload record, addresses not public, every
      number zero. */
  function NewLinkLayer(): (l: LinkLayer)
    ensures l.nonConnInd == None && l.scanReq == None
    ensures !l.txAddressPublic && !l.rxAddressPublic
    ensures l.accessAddress == 0 && l.pduType == 0 && l.channelSelect == 0
  {
    LinkLayer(0, 0, 0, false, false, None, None)
  }

  /** `BlePacket::new`: an invalid packet with zero counters and the new
      header and link layer. */
  function NewPacket(): (p: Packet)
    ensures !p.valid && p.protocolVersion == 0 && p.packetCounter == 0 && p.packetId == 0
    ensures p.packetHeader == NewPacketHeader() && p.llLayerData == NewLinkLayer()
  {
    Packet(false, 0, 0, 0, NewPacketHeader(), NewLinkLayer())
  }

  /** `BleLLNonConnIndMsg::new`: a zero address and nothing recorded. */
  function NewNonConnInd(): (r: NonConnInd)
    ensures r.advertisingMac == ZERO_MAC && r.advertisingTypes == []
    ensures r.flags == None && r.completeLocalName == None && r.txPowerLevel == None && r.manufacturerData == None
  {
    NonConnInd(ZERO_MAC, [], None, None, None, None)
  }

  /** `BleLLScanReqMsg::new`: both addresses zero. */
  function NewScanReq(): (r: ScanReq)
    ensures r.scanningMac == ZERO_MAC && r.advertisingMac == ZERO_MAC
  {
    ScanReq(ZERO_MAC, ZERO_MAC)
  }

  /** The five Flags bits (Supplement Part A, section 1.3): bit 0 LE Limited
      Discoverable, bit 1 LE General Discoverable, bit 2 BR/EDR not supported,
      bits 3 and 4 simultaneous LE and BR/EDR (controller, host). */
  function FlagsOf(b: byte): DataFlags
  {
    DataFlags(
      simultaneousHost := Bit(b, 4),
      simultaneousController := Bit(b, 3),
      brEdrSupport := Bit(b, 2),
      leGeneralDiscoverable := Bit(b, 1),
      leLimitedDiscoverable := Bit(b, 0))
  }
}
