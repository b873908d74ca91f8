/** The location report body (message 0x0200): the fixed 28-byte basic block followed by the
    additional-info records.  Both the live codec of codec/location and the older one of the
    codec package are modelled: they read the same fields at the same offsets and walk the
    records the same way, and differ only in what they keep. */
module LocationCodec {
  import opened Bytes
  import opened Protocol
  import opened Decimal
  import opened Bcd
  import opened AdditionalInfoCodec

  /** Offset of the BCD time field inside the basic block. */
  const TimeOffset: nat := 22

  /** The text handed to time.Parse: "20", the BCD text of the time field with at most one
      leading '0' trimmed, then the fixed zone "+0800". */
  function TimeText(timeBytes: seq<byte>): string
  {
    "20" + TrimPrefixZero(BcdText(timeBytes)) + "+0800"
  }

  /** locationBasicInfoCodec.Decode.  Every field is a slice of data up to data[22:], so fewer
      than 22 bytes panic on the first slice that does not fit; the time text that the parser
      rejects fails the decode; otherwise the big-endian fields and the parsed instant. */
  function BasicInfoOf(data: seq<byte>, parseTime: TimeParser): (r: Result<BasicInfo>)
    ensures r.Ok? <==> |data| >= TimeOffset && parseTime(TimeText(data[TimeOffset..])).Some?
    ensures |data| < TimeOffset ==> r == Err(OutOfRange)
    ensures r.Err? && |data| >= TimeOffset ==> r == Err(TimeParseFailed)
  {
    if |data| < TimeOffset then Err(OutOfRange)
    else
      match parseTime(TimeText(data[TimeOffset..]))
      case None => Err(TimeParseFailed)
      case Some(ts) =>
        Ok(BasicInfo(ReadBe32(data, 0), ReadBe32(data, 4), ReadBe32(data, 8), ReadBe32(data, 12),
                     ReadBe16(data, 16), ReadBe16(data, 18), ReadBe16(data, 20), ts))
  }

  /** locationBasicInfoCodec.Decode as the source runs it: the fields read one by one, then
      the time text built from the BCD digits and parsed. */
  method DecodeBasicInfo(data: seq<byte>, parseTime: TimeParser) returns (r: Result<BasicInfo>)
    ensures r == BasicInfoOf(data, parseTime)
  {
    if |data| < TimeOffset {
      return Err(OutOfRange);
    }
    var alert := ReadBe32(data, 0);
    var state := ReadBe32(data, 4);
    var lat := ReadBe32(data, 8);
    var lon := ReadBe32(data, 12);
    var altitude := ReadBe16(data, 16);
    var speed := ReadBe16(data, 18);
    var direction := ReadBe16(data, 20);
    var digits := DecodeBCD(data[TimeOffset..]);
    var tstr := TrimPrefixZero(digits);
    assert "20" + tstr + "+0800" == TimeText(data[TimeOffset..]);
    var ts := parseTime("20" + tstr + "+0800");
    if ts.None? {
      return Err(TimeParseFailed);
    }
    r := Ok(BasicInfo(alert, state, lat, lon, altitude, speed, direction, ts.value));
  }

  /** The bytes of a basic block: the seven big-endian fields of b, then the time field. */
  function BasicBytes(b: BasicInfo, timeBytes: seq<byte>): (s: seq<byte>)
    ensures |s| == TimeOffset + |timeBytes|
  {
    Be32(b.alert) + Be32(b.state) + Be32(b.latitude) + Be32(b.longitude)
    + Be16(b.altitude) + Be16(b.speed) + Be16(b.direction) + timeBytes
  }

  /** Where BasicBytes puts every field. */
  lemma BasicLayout(b: BasicInfo, timeBytes: seq<byte>)
    ensures var s := BasicBytes(b, timeBytes);
      && ReadBe32(s, 0) == b.alert && ReadBe32(s, 4) == b.state
      && ReadBe32(s, 8) == b.latitude && ReadBe32(s, 12) == b.longitude
      && ReadBe16(s, 16) == b.altitude && ReadBe16(s, 18) == b.speed && ReadBe16(s, 20) == b.direction
      && s[TimeOffset..] == timeBytes
  {
    BasicWords(b, timeBytes);
    BasicHalves(b, timeBytes);
  }

  /** The four uint32 fields of BasicBytes. */
  lemma BasicWords(b: BasicInfo, timeBytes: seq<byte>)
    ensures var s := BasicBytes(b, timeBytes);
      && ReadBe32(s, 0) == b.alert && ReadBe32(s, 4) == b.state
      && ReadBe32(s, 8) == b.latitude && ReadBe32(s, 12) == b.longitude
  {
    var s := BasicBytes(b, timeBytes);
    Read32At(s, 0, b.alert);
    Read32At(s, 4, b.state);
    Read32At(s, 8, b.latitude);
    Read32At(s, 12, b.longitude);
  }

  /** The three uint16 fields of BasicBytes and the time field behind them. */
  lemma BasicHalves(b: BasicInfo, timeBytes: seq<byte>)
    ensures var s := BasicBytes(b, timeBytes);
      && ReadBe16(s, 16) == b.altitude && ReadBe16(s, 18) == b.speed && ReadBe16(s, 20) == b.direction
      && s[TimeOffset..] == timeBytes
  {
    var s := BasicBytes(b, timeBytes);
    Read16At(s, 16, b.altitude);
    Read16At(s, 18, b.speed);
    Read16At(s, 20, b.direction);
  }

  /** A uint32 is read back from wherever its four bytes sit. */
  lemma Read32At(s: seq<byte>, off: nat, x: bv32)
    requires off + 4 <= |s|
    requires s[off] == Be32(x)[0] && s[off + 1] == Be32(x)[1] && s[off + 2] == Be32(x)[2] && s[off + 3] == Be32(x)[3]
    ensures ReadBe32(s, off) == x
  {
    ReadBe32Be32([], x, []);
    assert [] + Be32(x) + [] == Be32(x);
  }

  /** A uint16 is read back from wherever its two bytes sit. */
  lemma Read16At(s: seq<byte>, off: nat, x: bv16)
    requires off + 2 <= |s|
    requires s[off] == Be16(x)[0] && s[off + 1] == Be16(x)[1]
    ensures ReadBe16(s, off) == x
  {
    ReadBe16Be16([], x, []);
    assert [] + Be16(x) + [] == Be16(x);
  }

  /** Basic-block round trip: the block written from b and a time field whose text parses to
      b's instant decodes back to b. */
  lemma BasicRoundTrip(b: BasicInfo, timeBytes: seq<byte>, parseTime: TimeParser)
    requires parseTime(TimeText(timeBytes)) == Some(b.timestamp)
    ensures BasicInfoOf(BasicBytes(b, timeBytes), parseTime) == Ok(b)
  {
    BasicLayout(b, timeBytes);
  }

  /** The converse: a decoded block is exactly the bytes written from what it decoded to. */
  lemma BasicTile(data: seq<byte>, parseTime: TimeParser)
    requires BasicInfoOf(data, parseTime).Ok?
    ensures BasicBytes(BasicInfoOf(data, parseTime).value, data[TimeOffset..]) == data
  {
    FieldsTile(data);
  }

  /** Any 22 bytes or more are the big-endian writing of the fields read from them, then the
      rest. */
  lemma FieldsTile(data: seq<byte>)
    requires |data| >= TimeOffset
    ensures Be32(ReadBe32(data, 0)) + Be32(ReadBe32(data, 4)) + Be32(ReadBe32(data, 8)) + Be32(ReadBe32(data, 12))
          + Be16(ReadBe16(data, 16)) + Be16(ReadBe16(data, 18)) + Be16(ReadBe16(data, 20)) + data[TimeOffset..] == data
  {
    Be32Read(data, 0);
    Be32Read(data, 4);
    Be32Read(data, 8);
    Be32Read(data, 12);
    Be16Read(data, 16);
    Be16Read(data, 18);
    Be16Read(data, 20);
    BasicPieces(data);
  }

  /** The four bytes a uint32 is read from are the bytes it is written as. */
  lemma Be32Read(s: seq<byte>, off: nat)
    requires off + 4 <= |s|
    ensures Be32(ReadBe32(s, off)) == s[off..off + 4]
  {
    var a, b, c, d := s[off], s[off + 1], s[off + 2], s[off + 3];
    Be32OfBytes(a, b, c, d);
    assert s[off..off + 4] == [a, b, c, d];
  }

  lemma Be16Read(s: seq<byte>, off: nat)
    requires off + 2 <= |s|
    ensures Be16(ReadBe16(s, off)) == s[off..off + 2]
  {
    var a, b := s[off], s[off + 1];
    Be16OfBytes(a, b);
    assert s[off..off + 2] == [a, b];
  }

  lemma Be32OfBytes(a: byte, b: byte, c: byte, d: byte)
    ensures Be32(((a as bv32) << 24) | ((b as bv32) << 16) | ((c as bv32) << 8) | (d as bv32)) == [a, b, c, d]
  {
  }

  lemma Be16OfBytes(a: byte, b: byte)
    ensures Be16(((a as bv16) << 8) | (b as bv16)) == [a, b]
  {
  }

  /** A block of at least 22 bytes is its field slices laid end to end. */
  lemma BasicPieces(data: seq<byte>)
    requires |data| >= TimeOffset
    ensures data == data[0..4] + data[4..8] + data[8..12] + data[12..16]
                  + data[16..18] + data[18..20] + data[20..22] + data[TimeOffset..]
  {
  }

  /** The time text the parser sees.  A field of decimal digits whose first digit is not '0'
      yields "20", its 12 digits and "+0800"; when the first digit is '0' (the years 2000 to
      2009) that '0' is trimmed and the text is one character short, so the parser sees a
      different date, or none. */
  lemma TimeTextDigits(timeBytes: seq<byte>)
    requires |timeBytes| == 6 && DecimalNibbles(timeBytes)
    ensures HighNibble(timeBytes[0]) != 0 ==>
      TimeText(timeBytes) == "20" + BcdText(timeBytes) + "+0800" && |TimeText(timeBytes)| == 19
    ensures HighNibble(timeBytes[0]) == 0 ==>
      TimeText(timeBytes) == "20" + BcdText(timeBytes)[1..] + "+0800" && |TimeText(timeBytes)| == 18
  {
    BcdTextOfDecimal(timeBytes);
    DigitNibbleChar(HighNibble(timeBytes[0]));
  }

  /** The time field of the DecodeBCD doc comment, 2016-10-17 10:27:56, is given to the
      parser as written. */
  lemma TimeTextExample(t: seq<byte>)
    requires t == [0x16, 0x10, 0x17, 0x10, 0x27, 0x56]
    ensures TimeText(t) == "20161017102756+0800"
  {
    DecodeBcdDocExample();
    TimeTextOf(t, "161017102756");
  }

  /** The same instant in 2009 loses the '0' of its year: the parser sees "2091017102756". */
  lemma TimeTextYearQuirk(t: seq<byte>)
    requires t == [0x09, 0x10, 0x17, 0x10, 0x27, 0x56]
    ensures TimeText(t) == "2091017102756+0800"
  {
    Year2009Text(t);
    TimeTextOf(t, "091017102756");
  }

  lemma Year2009Text(t: seq<byte>)
    requires t == [0x09, 0x10, 0x17, 0x10, 0x27, 0x56]
    ensures BcdText(t) == "091017102756"
  {
    var e := EncodeBCD("091017102756");
    assert e[0] == 0x09 && e[1] == 0x10 && e[2] == 0x17 && e[3] == 0x10 && e[4] == 0x27 && e[5] == 0x56;
    assert e == t;
    DecodeEncodeBcd("091017102756");
  }

  lemma TimeTextOf(t: seq<byte>, digits: string)
    requires BcdText(t) == digits
    ensures TimeText(t) == "20" + TrimPrefixZero(digits) + "+0800"
  {
  }

  /** locationCodec.Decode: at least 28 bytes (data[:28] panics otherwise), the basic block
      decoded from the first 28, the records from the rest; either error aborts the decode.
      The body keeps the data it was decoded from. */
  function LocationOf(data: seq<byte>, parseTime: TimeParser): (r: Result<Body>)
    ensures r.Ok? ==> r.value.LocationMsgBody? && r.value.data == data
    ensures |data| < LocationBasicInfoLength ==> r == Err(OutOfRange)
  {
    if |data| < LocationBasicInfoLength then Err(OutOfRange)
    else
      match BasicInfoOf(data[..LocationBasicInfoLength], parseTime)
      case Err(e) => Err(e)
      case Ok(basic) =>
        match AdditionalInfos(data[LocationBasicInfoLength..])
        case Err(e) => Err(e)
        case Ok(infos) => Ok(LocationMsgBody(basic, infos, data))
  }

  /** locationCodec.Decode as the source runs it. */
  method DecodeLocation(data: seq<byte>, parseTime: TimeParser) returns (r: Result<Body>)
    ensures r == LocationOf(data, parseTime)
  {
    if |data| < LocationBasicInfoLength {
      return Err(OutOfRange);
    }
    var basic := DecodeBasicInfo(data[..LocationBasicInfoLength], parseTime);
    if basic.Err? {
      return Err(basic.error);
    }
    var additionals := DecodeAdditionalInfo(data[LocationBasicInfoLength..]);
    if additionals.Err? {
      return Err(additionals.error);
    }
    r := Ok(LocationMsgBody(basic.value, additionals.value, data));
  }

  /** locationCodec.Encode is a stub: it returns no bytes and no error, whatever the body. */
  function EncodeLocation(b: Body): Result<seq<byte>>
  {
    Ok([])
  }

  /** Encode does not invert Decode: what it returns for any body is refused by Decode, which
      needs the 28-byte basic block. */
  lemma EncodeLocationNotInverse(b: Body, parseTime: TimeParser)
    ensures EncodeLocation(b).Ok?
    ensures LocationOf(EncodeLocation(b).value, parseTime) == Err(OutOfRange)
  {
  }

  /** A location body decodes exactly when its basic block and its records do, and then holds
      what they decode to; its records tile the bytes after the basic block and its basic block
      is the first 28 bytes written back. */
  lemma LocationParts(data: seq<byte>, parseTime: TimeParser)
    requires |data| >= LocationBasicInfoLength
    ensures LocationOf(data, parseTime).Ok? <==>
      BasicInfoOf(data[..LocationBasicInfoLength], parseTime).Ok? && AdditionalInfos(data[LocationBasicInfoLength..]).Ok?
    ensures LocationOf(data, parseTime).Ok? ==>
      var body := LocationOf(data, parseTime).value;
      && body.basic == BasicInfoOf(data[..LocationBasicInfoLength], parseTime).value
      && body.additionalInfos == AdditionalInfos(data[LocationBasicInfoLength..]).value
      && BasicBytes(body.basic, data[TimeOffset..LocationBasicInfoLength]) == data[..LocationBasicInfoLength]
      && Records(body.additionalInfos) == data[LocationBasicInfoLength..]
  {
    if LocationOf(data, parseTime).Ok? {
      BasicTile(data[..LocationBasicInfoLength], parseTime);
      assert data[..LocationBasicInfoLength][TimeOffset..] == data[TimeOffset..LocationBasicInfoLength];
      AdditionalInfosTile(data[LocationBasicInfoLength..]);
    }
  }

  /** A report written as a basic block with a 6-byte time field followed by unknown records
      decodes back to the same basic info and the same records. */
  lemma LocationRoundTrip(b: BasicInfo, timeBytes: seq<byte>, infos: seq<AdditionalInfo>, parseTime: TimeParser)
    requires |timeBytes| == 6 && parseTime(TimeText(timeBytes)) == Some(b.timestamp)
    requires VerbatimUnknowns(infos)
    ensures var data := BasicBytes(b, timeBytes) + Records(infos);
      LocationOf(data, parseTime) == Ok(LocationMsgBody(b, infos, data))
  {
    var basic := BasicBytes(b, timeBytes);
    var data := basic + Records(infos);
    assert data[..LocationBasicInfoLength] == basic;
    assert data[LocationBasicInfoLength..] == Records(infos);
    BasicRoundTrip(b, timeBytes, parseTime);
    UnknownRecordsRoundTrip(infos);
  }

  /** The older LocationMsgBody: the basic info and the items, without the data. */
  datatype LegacyLocationBody = LegacyLocationBody(basic: BasicInfo, additionalInfos: seq<AdditionalInfo>)

  /** The older locationCodec.Decode: the same split at byte 28, the same basic fields (the
      instant kept as Unix seconds) and the same walk, each error aborting the decode. */
  function LegacyLocationOf(data: seq<byte>, parseTime: TimeParser): (r: Result<LegacyLocationBody>)
  {
    if |data| < LocationBasicInfoLength then Err(OutOfRange)
    else
      match BasicInfoOf(data[..LocationBasicInfoLength], parseTime)
      case Err(e) => Err(e)
      case Ok(basic) =>
        match AdditionalInfos(data[LocationBasicInfoLength..])
        case Err(e) => Err(e)
        case Ok(infos) => Ok(LegacyLocationBody(basic, infos))
  }

  /** The older locationCodec.Decode as the source runs it. */
  method DecodeLegacyLocation(data: seq<byte>, parseTime: TimeParser) returns (r: Result<LegacyLocationBody>)
    ensures r == LegacyLocationOf(data, parseTime)
  {
    if |data| < LocationBasicInfoLength {
      return Err(OutOfRange);
    }
    var basic := DecodeBasicInfo(data[..LocationBasicInfoLength], parseTime);
    if basic.Err? {
      return Err(basic.error);
    }
    var additionals := DecodeAdditionalInfo(data[LocationBasicInfoLength..]);
    if additionals.Err? {
      return Err(additionals.error);
    }
    r := Ok(LegacyLocationBody(basic.value, additionals.value));
  }

  /** The two codecs agree: the older one succeeds exactly when the live one does, with the
      same error, and keeps the same basic info and items. */
  lemma LegacyAgrees(data: seq<byte>, parseTime: TimeParser)
    ensures LegacyLocationOf(data, parseTime).Ok? <==> LocationOf(data, parseTime).Ok?
    ensures LegacyLocationOf(data, parseTime).Err? ==>
      LegacyLocationOf(data, parseTime).error == LocationOf(data, parseTime).error
    ensures LegacyLocationOf(data, parseTime).Ok? ==>
      LegacyLocationOf(data, parseTime).value.basic == LocationOf(data, parseTime).value.basic
      && LegacyLocationOf(data, parseTime).value.additionalInfos == LocationOf(data, parseTime).value.additionalInfos
  {
  }
}
