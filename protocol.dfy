/** The value types of the codec: header, body attribute, segmentation block, the message
    bodies and the location additional-info items, with the error values the codec returns.
    Every entity is a value created fresh by one Encode or Decode call. */
module Protocol {
  import opened Bytes

  /** Header length with the segmentation block, and without it. */
  const MessageHeaderMaxLength: nat := 16
  const MessageHeaderNormalLength: nat := 12

  /** The frame delimiter (identifier) and the escape byte. */
  const Flag: byte := 0x7e
  const EscapeMark: byte := 0x7d

  /** Message ids the dispatch knows: terminal general response, platform general response,
      location report. */
  const ClientResponseId: bv16 := 0x0001
  const ServerResponseId: bv16 := 0x8001
  const LocationReportId: bv16 := 0x0200

  /** Additional-info ids with a dedicated decoder. */
  const WifiInfoId: byte := 0x54
  const BatteryInfoId: byte := 0x56

  /** Length of the fixed location basic-info block. */
  const LocationBasicInfoLength: nat := 28

  datatype Option<T> = None | Some(value: T)

  datatype Error =
    | ChecksumFailed          // ErrChecksumFailed
    | DecodeHeaderFailed      // ErrDecodeHeaderFailed
    | MessageIdNotSupported   // ErrMessageIdNotSupported
    | BodyNotClientResponse   // response.ErrBodyNotClientResponse
    | BodyNotServerResponse   // response.ErrBodyNotServerResponse
    | BodyNotResponse         // ErrBodyNotResponse of the older response codec
    | PhoneParseFailed        // the error strconv.ParseUint returns inside the header decoder
    | TimeParseFailed         // the error time.Parse returns inside the basic-info decoder
    | ShortRead               // io.EOF or io.ErrUnexpectedEOF: binary.Read found fewer bytes than it reads
    | OutOfRange              // an index or slice past the end of the data: a run-time panic in Go
    | NilPointer              // a nil pointer dereferenced: a run-time panic in Go

  datatype Result<T> = Ok(value: T) | Err(error: Error)

  /** The 16-bit message body attribute, unpacked. */
  datatype BodyAttr = BodyAttr(
    segmentationEnabled: bool,
    preserved: bv8,
    encryptionMethod: string,   // "RSA" or "" on decode; Encode tests only for "RSA"
    bodyLength: bv16)

  datatype SegmentInfo = SegmentInfo(totalSegments: bv16, segmentNum: bv16)

  /** segInfo is the Go pointer SegInfo: None is nil. */
  datatype Header = Header(
    messageId: bv16,
    attr: BodyAttr,
    phone: uint64,
    serialNum: bv16,
    segInfo: Option<SegmentInfo>)

  /** One WiFi entry: the 6 raw MAC bytes and the decoded signal strength. */
  datatype Wifi = Wifi(macAddress: seq<byte>, signalStrength: byte)

  /** The location additional-info items (the LocationAdditionalInfo interface). */
  datatype AdditionalInfo =
    | Wifis(wifis: seq<Wifi>, data: seq<byte>)
    | Battery(percentage: byte, extension: byte, raw: seq<byte>)  // extension is Extention in the source
    | UnknownInfo(id: byte, length: byte, body: seq<byte>)
  {
    /** Id() of each implementation */
    function Id(): byte
    {
      match this
      case Wifis(_, _) => WifiInfoId
      case Battery(_, _, _) => BatteryInfoId
      case UnknownInfo(id, _, _) => id
    }

    /** Length() of each implementation; the WiFi one is uint8(len(Wifis)*7 + 1), truncated. */
    function Length(): byte
    {
      match this
      case Wifis(wifis, _) => ((|wifis| * 7 + 1) % 256) as bv8
      case Battery(_, _, _) => 3
      case UnknownInfo(_, length, _) => length
    }

    /** Info() of each implementation */
    function Info(): seq<byte>
    {
      match this
      case Wifis(_, data) => data
      case Battery(_, _, raw) => raw
      case UnknownInfo(_, _, body) => body
    }
  }

  /** The 28-byte location basic info, latitude and longitude as their raw uint32 values;
      timestamp is the instant the time parser returned for the BCD time field. */
  datatype BasicInfo = BasicInfo(
    alert: bv32,
    state: bv32,
    latitude: bv32,
    longitude: bv32,
    altitude: bv16,
    speed: bv16,
    direction: bv16,
    timestamp: int)

  /** The message bodies; NoBody is the nil Body the response decoders return. */
  datatype Body =
    | NoBody
    | ClientResponse(serialNum: bv16, id: bv16, result: byte)
    | ServerResponse(serialNum: bv16, id: bv16, result: byte)
    | LocationMsgBody(basic: BasicInfo, additionalInfos: seq<AdditionalInfo>, data: seq<byte>)

  datatype Message = Message(identifier: byte, h: Header, b: Body, checksum: byte)

  /** Go's time.Parse with layout "20060102150405-0700", followed by the conversion to an
      instant: a parameter of the model, since the calendar code is not part of it. */
  type TimeParser = string -> Option<int>
}
