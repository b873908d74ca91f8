/** The message codec of codec/codec.go: Encode frames a server response (header, body,
    checksum, escaping, delimiters); Decode undoes the framing, checks the checksum, decodes
    the header and dispatches the body on the message id. */
module MessageCodec {
  import opened Bytes
  import opened Protocol
  import opened Frame
  import opened Checksum
  import HeaderCodec
  import opened ResponseCodec
  import opened LocationCodec

  /** The message ids Decode has a body codec for. */
  predicate Dispatched(id: bv16)
  {
    id == ClientResponseId || id == ServerResponseId || id == LocationReportId
  }

  /** The frame around header ++ body: 0x7e, the escaped bytes followed by their checksum, 0x7e. */
  function Framed(headerBody: seq<byte>): (r: seq<byte>)
    ensures |r| >= |headerBody| + 3
    ensures r[0] == Flag && r[|r| - 1] == Flag && Flag !in r[1..|r| - 1]
  {
    var inner := Escaped(headerBody + [XorSum(headerBody)]);
    assert ([Flag] + inner + [Flag])[1..|inner| + 1] == inner;
    [Flag] + inner + [Flag]
  }

  /** What Encode returns.  The header is encoded first, so a segmented header without a
      segment block fails before the message id is looked at; only 0x8001 has a body codec. */
  function MessageBytes(msg: Message): (r: Result<seq<byte>>)
    ensures r.Ok? <==>
      && (msg.h.attr.segmentationEnabled ==> msg.h.segInfo.Some?)
      && msg.h.messageId == ServerResponseId
      && msg.b.ServerResponse?
    ensures msg.h.attr.segmentationEnabled && msg.h.segInfo.None? ==> r == Err(NilPointer)
    ensures r.Ok? ==> var s := r.value;
      |s| >= 3 && s[0] == Flag && s[|s| - 1] == Flag && Flag !in s[1..|s| - 1]
  {
    if msg.h.attr.segmentationEnabled && msg.h.segInfo.None? then Err(NilPointer)
    else if msg.h.messageId != ServerResponseId then Err(MessageIdNotSupported)
    else match ServerResponseEncoding(msg.b)
      case Err(e) => Err(e)
      case Ok(body) => Ok(Framed(HeaderCodec.HeaderBytes(msg.h) + body))
  }

  /** Encode: header bytes, the body codec chosen by the id, the checksum byte, escape, frame. */
  method Encode(msg: Message) returns (r: Result<seq<byte>>)
    ensures r == MessageBytes(msg)
  {
    if msg.h.attr.segmentationEnabled && msg.h.segInfo.None? {
      return Err(NilPointer);
    }
    var headerBytes := HeaderCodec.Encode(msg.h);
    if msg.h.messageId != ServerResponseId {
      return Err(MessageIdNotSupported);
    }
    var bodyBytes := EncodeServerResponse(msg.b);
    if bodyBytes.Err? {
      return Err(bodyBytes.error);
    }
    var buf := headerBytes + bodyBytes.value;
    var sum := Checksum.Checksum(buf);
    var escaped := Escape(buf + [sum]);
    r := Ok([Flag] + escaped + [Flag]);
  }

  /** The unescaped header ++ body ++ checksum of a received frame.  Empty data, and a lone
      0x7e (which trimIdentifiers leaves empty), are read past their end; so is a trailing
      0x7d by unescape and a payload under two bytes by checksumVerified. */
  function Unframed(data: seq<byte>): (r: Result<seq<byte>>)
    ensures r.Ok? ==> |r.value| >= 2
    ensures r.Err? ==> r.error == OutOfRange
  {
    if |data| == 0 || (data[0] == Flag && |data| == 1) then Err(OutOfRange)
    else match Unescaped(TrimIdentifiers(data))
      case None => Err(OutOfRange)
      case Some(u) => if |u| < 2 then Err(OutOfRange) else Ok(u)
  }

  /** Where the body starts in the unescaped payload: after the 16-byte header when it is
      segmented, after the 12-byte one otherwise. */
  function BodyStart(h: Header): nat
  {
    if h.attr.segmentationEnabled then MessageHeaderMaxLength else MessageHeaderNormalLength
  }

  /** The body codec the id selects: the two responses decode to no body, a location report
      through the location codec. */
  function BodyOf(id: bv16, bodyBytes: seq<byte>, parseTime: TimeParser): (r: Result<Body>)
    requires Dispatched(id)
    ensures r.Ok? ==> (r.value.LocationMsgBody? <==> id == LocationReportId)
    ensures r.Ok? && id != LocationReportId ==> r.value == NoBody
  {
    if id == LocationReportId then LocationOf(bodyBytes, parseTime) else DecodeResponse(bodyBytes)
  }

  /** What Decode returns for data. */
  function MessageOf(data: seq<byte>, parseTime: TimeParser): (r: Result<Message>)
    ensures |data| == 0 ==> r == Err(OutOfRange)
    ensures r.Ok? ==> r.value.identifier == Flag && Dispatched(r.value.h.messageId)
    ensures r.Ok? ==> (r.value.b.LocationMsgBody? <==> r.value.h.messageId == LocationReportId)
    ensures r.Ok? ==> r.value.b.LocationMsgBody? || r.value.b.NoBody?
  {
    match Unframed(data)
    case Err(e) => Err(e)
    case Ok(u) => PayloadMessage(u, parseTime)
  }

  /** What Decode makes of the unescaped payload u: the checksum check, the header decoded from
      the first 16 bytes, the body codec chosen by the id, and the body between the header and
      the checksum byte. */
  function PayloadMessage(u: seq<byte>, parseTime: TimeParser): (r: Result<Message>)
    requires |u| >= 2
    ensures r.Ok? ==> r.value.identifier == Flag && Dispatched(r.value.h.messageId)
    ensures r.Ok? ==> (r.value.b.LocationMsgBody? <==> r.value.h.messageId == LocationReportId)
    ensures r.Ok? ==> r.value.b.LocationMsgBody? || r.value.b.NoBody?
    ensures r.Ok? ==> r.value.checksum == u[|u| - 1] == XorSum(u[..|u| - 1])
  {
    var (checksum, valid) := ChecksumVerified(u);
    if !valid then Err(ChecksumFailed)
    else if |u| < MessageHeaderMaxLength then Err(OutOfRange)
    else match HeaderCodec.DecodeHeader(u[..MessageHeaderMaxLength])
      case Err(_) => Err(DecodeHeaderFailed)
      case Ok(h) =>
        if !Dispatched(h.messageId) then Err(MessageIdNotSupported)
        else if |u| - 1 < BodyStart(h) then Err(OutOfRange)
        else match BodyOf(h.messageId, u[BodyStart(h)..|u| - 1], parseTime)
          case Err(e) => Err(e)
          case Ok(b) => Ok(Message(Flag, h, b, checksum))
  }

  /** Any payload of two bytes or more, escaped and framed, reaches the payload decoder intact. */
  lemma Reframed(u: seq<byte>, parseTime: TimeParser)
    requires |u| >= 2
    ensures MessageOf([Flag] + Escaped(u) + [Flag], parseTime) == PayloadMessage(u, parseTime)
  {
    TrimFramed(Escaped(u));
    UnescapeEscape(u);
  }

  /** Decode: trim, unescape, verify, decode the header, choose the body codec, slice the body
      out and decode it. */
  method Decode(data: seq<byte>, parseTime: TimeParser) returns (r: Result<Message>)
    ensures r == MessageOf(data, parseTime)
  {
    if |data| == 0 || (data[0] == Flag && |data| == 1) {
      return Err(OutOfRange);
    }
    var trimmed := TrimIdentifiers(data);
    var unescaped := Unescape(trimmed);
    if unescaped.None? || |unescaped.value| < 2 {
      return Err(OutOfRange);
    }
    var u := unescaped.value;
    assert Unframed(data) == Ok(u);
    var checksum := u[|u| - 1];
    var realsum := Checksum.Checksum(u[..|u| - 1]);
    assert ChecksumVerified(u) == (checksum, realsum == checksum);
    if realsum != checksum {
      return Err(ChecksumFailed);
    }
    if |u| < MessageHeaderMaxLength {
      return Err(OutOfRange);
    }
    var header := HeaderCodec.Decode(u[..MessageHeaderMaxLength]);
    if header.Err? {
      return Err(DecodeHeaderFailed);
    }
    var h := header.value;
    if !Dispatched(h.messageId) {
      return Err(MessageIdNotSupported);
    }
    var start := if h.attr.segmentationEnabled then MessageHeaderMaxLength else MessageHeaderNormalLength;
    if |u| - 1 < start {
      return Err(OutOfRange);
    }
    var bodyBytes := u[start..|u| - 1];
    var body: Result<Body>;
    if h.messageId == LocationReportId {
      body := DecodeLocation(bodyBytes, parseTime);
    } else {
      body := DecodeResponse(bodyBytes);
    }
    assert start == BodyStart(h) && body == BodyOf(h.messageId, bodyBytes, parseTime);
    if body.Err? {
      return Err(body.error);
    }
    r := Ok(Message(Flag, h, body.value, checksum));
  }

  /** A decoded message carries the header of the first 16 payload bytes and the checksum byte
      that closes the payload, which is the XOR of everything before it. */
  lemma DecodedMessage(data: seq<byte>, parseTime: TimeParser)
    requires MessageOf(data, parseTime).Ok?
    ensures Unframed(data).Ok?
    ensures var u, m := Unframed(data).value, MessageOf(data, parseTime).value;
      && |u| >= MessageHeaderMaxLength
      && m.checksum == u[|u| - 1] == XorSum(u[..|u| - 1])
      && HeaderCodec.DecodeHeader(u[..MessageHeaderMaxLength]) == Ok(m.h)
      && BodyOf(m.h.messageId, u[BodyStart(m.h)..|u| - 1], parseTime) == Ok(m.b)
  {
  }

  /** The payload Encode builds for an encodable header: it verifies, and its first 16 bytes
      decode to the header. */
  lemma PayloadHeader(h: Header, body: seq<byte>) returns (u: seq<byte>)
    requires HeaderCodec.Encodable(h)
    requires |HeaderCodec.HeaderBytes(h)| + |body| + 1 >= MessageHeaderMaxLength
    ensures var hb := HeaderCodec.HeaderBytes(h) + body;
      && u == hb + [XorSum(hb)] && |u| >= MessageHeaderMaxLength
      && ChecksumVerified(u) == (XorSum(hb), true)
      && HeaderCodec.DecodeHeader(u[..MessageHeaderMaxLength]) == Ok(h)
      && BodyStart(h) == |HeaderCodec.HeaderBytes(h)|
      && u[BodyStart(h)..|u| - 1] == body
  {
    var header := HeaderCodec.HeaderBytes(h);
    var hb := header + body;
    HeaderCodec.HeaderLength(h);
    u := hb + [XorSum(hb)];
    AppendedChecksumVerifies(hb);
    var tail := body + [XorSum(hb)];
    HeaderCodec.ConcatAssoc(header, body, [XorSum(hb)]);
    SplitAt(header, tail, MessageHeaderMaxLength);
    HeaderCodec.HeaderRoundTrip(h, tail[..MessageHeaderMaxLength - |header|]);
    assert u[|header|..|u| - 1] == body;
  }

  /** A prefix of a + b that covers a. */
  lemma SplitAt(a: seq<byte>, b: seq<byte>, m: nat)
    requires |a| <= m <= |a| + |b|
    ensures (a + b)[..m] == a + b[..m - |a|]
  {
  }

  /** The frame of an encodable header with an id Decode knows and a body long enough to fill
      the first 16 payload bytes decodes to that header, the body its codec makes of the body
      bytes, and the checksum Encode appends. */
  lemma FrameDecodes(h: Header, body: seq<byte>, parseTime: TimeParser)
    requires HeaderCodec.Encodable(h) && Dispatched(h.messageId)
    requires |HeaderCodec.HeaderBytes(h)| + |body| + 1 >= MessageHeaderMaxLength
    ensures var hb := HeaderCodec.HeaderBytes(h) + body;
      MessageOf(Framed(hb), parseTime) ==
        match BodyOf(h.messageId, body, parseTime)
        case Err(e) => Err(e)
        case Ok(b) => Ok(Message(Flag, h, b, XorSum(hb)))
  {
    var u := PayloadHeader(h, body);
    Reframed(u, parseTime);
  }

  /** Trimming the delimiters of an Encode output and unescaping it give back header ++ body
      ++ checksum, and that payload passes the checksum check. */
  lemma EncodeUnframes(msg: Message)
    requires MessageBytes(msg).Ok?
    ensures var hb := HeaderCodec.HeaderBytes(msg.h) + ResponseBytes(msg.b.serialNum, msg.b.id, msg.b.result);
      && Unframed(MessageBytes(msg).value) == Ok(hb + [XorSum(hb)])
      && ChecksumVerified(hb + [XorSum(hb)]) == (XorSum(hb), true)
  {
    var hb := HeaderCodec.HeaderBytes(msg.h) + ResponseBytes(msg.b.serialNum, msg.b.id, msg.b.result);
    assert MessageBytes(msg) == Ok(Framed(hb));
    TrimFramed(Escaped(hb + [XorSum(hb)]));
    UnescapeEscape(hb + [XorSum(hb)]);
    AppendedChecksumVerifies(hb);
  }

  /** Encode then Decode: a server response comes back with its header and checksum, but
      without its body, since the server response codec decodes every body to nil. */
  lemma ServerResponseRoundTrip(msg: Message, parseTime: TimeParser)
    requires HeaderCodec.Encodable(msg.h)
    requires msg.h.messageId == ServerResponseId && msg.b.ServerResponse?
    ensures MessageBytes(msg).Ok?
    ensures var hb := HeaderCodec.HeaderBytes(msg.h) + ResponseBytes(msg.b.serialNum, msg.b.id, msg.b.result);
      MessageOf(MessageBytes(msg).value, parseTime) == Ok(Message(Flag, msg.h, NoBody, XorSum(hb)))
  {
    var body := ResponseBytes(msg.b.serialNum, msg.b.id, msg.b.result);
    HeaderCodec.HeaderLength(msg.h);
    assert MessageBytes(msg) == Ok(Framed(HeaderCodec.HeaderBytes(msg.h) + body));
    FrameDecodes(msg.h, body, parseTime);
  }

  /** A location report framed around the bytes of a basic-info block and a run of additional
      info records decodes to that block and those records. */
  lemma LocationFrameRoundTrip(h: Header, b: BasicInfo, timeBytes: seq<byte>,
                               infos: seq<AdditionalInfo>, parseTime: TimeParser)
    requires HeaderCodec.Encodable(h) && h.messageId == LocationReportId
    requires |timeBytes| == 6 && parseTime(TimeText(timeBytes)) == Some(b.timestamp)
    requires AdditionalInfoCodec.VerbatimUnknowns(infos)
    ensures var body := BasicBytes(b, timeBytes) + AdditionalInfoCodec.Records(infos);
      var hb := HeaderCodec.HeaderBytes(h) + body;
      MessageOf(Framed(hb), parseTime) == Ok(Message(Flag, h, LocationMsgBody(b, infos, body), XorSum(hb)))
  {
    var body := BasicBytes(b, timeBytes) + AdditionalInfoCodec.Records(infos);
    LocationRoundTrip(b, timeBytes, infos, parseTime);
    FrameDecodes(h, body, parseTime);
  }

  /** A payload whose checksum byte does not match is refused before anything else is read. */
  lemma ChecksumFailure(u: seq<byte>, parseTime: TimeParser)
    requires |u| >= 2 && !ChecksumVerified(u).1
    ensures MessageOf([Flag] + Escaped(u) + [Flag], parseTime) == Err(ChecksumFailed)
  {
    Reframed(u, parseTime);
  }

  /** The payload hb ++ [sum] with byte k of hb flipped by mask, as a split around k. */
  lemma FlippedPayload(hb: seq<byte>, k: nat, mask: byte, sum: byte)
    requires k < |hb|
    ensures hb + [sum] == hb[..k] + [hb[k]] + hb[k + 1..] + [sum]
    ensures hb[k := hb[k] ^ mask] + [sum] == hb[..k] + [hb[k] ^ mask] + hb[k + 1..] + [sum]
  {
  }

  /** One payload byte changed in transit (after unescaping), the checksum no longer matches. */
  lemma CorruptedPayloadRejected(hb: seq<byte>, k: nat, mask: byte, parseTime: TimeParser)
    requires k < |hb| && mask != 0
    ensures var received := hb[k := hb[k] ^ mask] + [XorSum(hb)];
      MessageOf([Flag] + Escaped(received) + [Flag], parseTime) == Err(ChecksumFailed)
  {
    var sum := XorSum(hb);
    FlippedPayload(hb, k, mask, sum);
    AppendedChecksumVerifies(hb);
    ChecksumDetectsPayloadCorruption(hb[..k], hb[k], hb[k + 1..], sum, mask);
    ChecksumFailure(hb[k := hb[k] ^ mask] + [sum], parseTime);
  }

  /** A changed checksum byte is rejected as well. */
  lemma CorruptedChecksumRejected(hb: seq<byte>, mask: byte, parseTime: TimeParser)
    requires |hb| >= 1 && mask != 0
    ensures var received := hb + [XorSum(hb) ^ mask];
      MessageOf([Flag] + Escaped(received) + [Flag], parseTime) == Err(ChecksumFailed)
  {
    var sum := XorSum(hb);
    AppendedChecksumVerifies(hb);
    ChecksumDetectsChecksumCorruption(hb, sum, mask);
    ChecksumFailure(hb + [sum ^ mask], parseTime);
  }

  /** A frame whose header decodes to an id without a body codec is refused, whatever follows. */
  lemma UnsupportedIdRejected(h: Header, body: seq<byte>, parseTime: TimeParser)
    requires HeaderCodec.Encodable(h) && !Dispatched(h.messageId)
    requires |HeaderCodec.HeaderBytes(h)| + |body| + 1 >= MessageHeaderMaxLength
    ensures MessageOf(Framed(HeaderCodec.HeaderBytes(h) + body), parseTime) == Err(MessageIdNotSupported)
  {
    var u := PayloadHeader(h, body);
    Reframed(u, parseTime);
  }
}
