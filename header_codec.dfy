/** codec/header_codec.go: the message header.  Layout, big-endian:
      message id (2) · body attribute (2) · phone as 12 BCD digits (6) · serial number (2)
      [ · total segments (2) · segment number (2) when segmentation is enabled ].
    The attribute word packs preserved (bits 15-14), the segmentation flag (bit 13), the
    encryption method (bits 12-10, 1 meaning RSA) and the body length (bits 9-0). */
module HeaderCodec {
  import opened Bytes
  import opened Bcd
  import opened Decimal
  import opened Protocol

  /** The one encryption method the attribute records. */
  predicate IsRsa(encryptionMethod: string)
  {
    encryptionMethod == "RSA"
  }

  /** The attribute word Encode builds: each part is OR-ed in without masking, so a preserved
      value from 4 on loses its high bits to the 16-bit shift and a body length from 1024 on
      spills into the flag bits. */
  function AttrWord(a: BodyAttr): bv16
  {
    PackAttr(a.preserved, a.segmentationEnabled, IsRsa(a.encryptionMethod), a.bodyLength)
  }

  function PackAttr(preserved: bv8, segmentationEnabled: bool, rsa: bool, bodyLength: bv16): bv16
  {
    ((preserved as bv16) << 14)
      | (if segmentationEnabled then 0x2000 else 0)
      | (if rsa then 0x0400 else 0)
      | bodyLength
  }

  /** The attribute Decode reads from the high attribute byte and the whole attribute word. */
  function DecodeAttr(hi: byte, word: bv16): (a: BodyAttr)
    ensures a.preserved < 4 && a.bodyLength < 1024
    ensures a.encryptionMethod == "RSA" || a.encryptionMethod == ""
  {
    BodyAttr(
      (hi & 0x20) >> 5 == 1,
      hi >> 6,
      if (hi & 0x1c) >> 2 == 1 then "RSA" else "",
      word & 0x03ff)
  }

  /** The phone text Encode packs: fmt.Sprintf("%d") left-padded with '0' to 12 digits. */
  function PaddedPhone(phone: uint64): (s: string)
    ensures IsDecimal(s) && |s| >= 12
  {
    var t := DecimalText(phone);
    if |t| < 12 then Zeros(12 - |t|) + t else t
  }

  /** The phone Decode reads from the 6 phone bytes: their BCD text, one leading '0' trimmed,
      parsed as a decimal uint64. */
  function PhoneOf(phoneBytes: seq<byte>): Option<uint64>
  {
    ParseUint(TrimPrefixZero(BcdText(phoneBytes)))
  }

  /** The bytes Encode returns.  A header with segmentation enabled must carry a segment
      block: Encode dereferences SegInfo then, which panics on nil. */
  function HeaderBytes(h: Header): seq<byte>
    requires h.attr.segmentationEnabled ==> h.segInfo.Some?
  {
    Be16(h.messageId) + Be16(AttrWord(h.attr)) + EncodeBCD(PaddedPhone(h.phone)) + Be16(h.serialNum)
      + (if h.attr.segmentationEnabled
         then Be16(h.segInfo.value.totalSegments) + Be16(h.segInfo.value.segmentNum)
         else [])
  }

  /** The attribute word as Encode builds it, one OR at a time. */
  method BuildAttr(preserved: bv8, segmentationEnabled: bool, encryptionMethod: string, bodyLength: bv16)
    returns (attr: bv16)
    ensures attr == PackAttr(preserved, segmentationEnabled, IsRsa(encryptionMethod), bodyLength)
  {
    attr := 0;
    attr := attr | ((preserved as bv16) << 14);
    if segmentationEnabled {
      attr := attr | 0x2000;
    }
    if encryptionMethod == "RSA" {
      attr := attr | 0x0400;
    }
    attr := attr | bodyLength;
  }

  /** The padding loop of Encode: one '0' prepended per missing digit. */
  method PadPhone(phone: uint64) returns (fillPhoneStr: string)
    ensures fillPhoneStr == PaddedPhone(phone)
  {
    var phoneStr := DecimalText(phone);
    fillPhoneStr := phoneStr;
    if |phoneStr| < 12 {
      for i := 0 to 12 - |phoneStr|
        invariant fillPhoneStr == Zeros(i) + phoneStr
      {
        fillPhoneStr := "0" + fillPhoneStr;
        assert Zeros(i + 1) + phoneStr == "0" + (Zeros(i) + phoneStr);
      }
    }
  }

  /** headerCodec.Encode: the fields appended in order. */
  method Encode(h: Header) returns (res: seq<byte>)
    requires h.attr.segmentationEnabled ==> h.segInfo.Some?
    ensures res == HeaderBytes(h)
  {
    res := Be16(h.messageId);
    var attr := BuildAttr(h.attr.preserved, h.attr.segmentationEnabled, h.attr.encryptionMethod, h.attr.bodyLength);
    res := res + Be16(attr);
    var fillPhoneStr := PadPhone(h.phone);
    var phoneBytes := EncodeBCD(fillPhoneStr);
    res := res + phoneBytes;
    res := res + Be16(h.serialNum);
    if h.attr.segmentationEnabled {
      var totalSegments := Be16(h.segInfo.value.totalSegments);
      var segmentNum := Be16(h.segInfo.value.segmentNum);
      res := res + totalSegments;
      res := res + segmentNum;
      assert res == Be16(h.messageId) + Be16(attr) + phoneBytes + Be16(h.serialNum) + (totalSegments + segmentNum);
    } else {
      assert res == Be16(h.messageId) + Be16(attr) + phoneBytes + Be16(h.serialNum) + [];
    }
  }

  /** headerCodec.Decode.  Fewer than 12 bytes panic on the first slices; a phone ParseUint
      rejects fails the decode; with segmentation enabled the segment block is read from
      h[12:]: fewer than 2 bytes there panic on [:2], and fewer than 4 make binary.Read of
      the segment number fail. */
  function DecodeHeader(h: seq<byte>): (r: Result<Header>)
    ensures r.Ok? ==> |h| >= 12 && r.value.messageId == ReadBe16(h, 0) && r.value.serialNum == ReadBe16(h, 10)
    ensures r.Ok? ==> PhoneOf(h[4..10]) == Some(r.value.phone)
    ensures r.Ok? ==> (r.value.segInfo.Some? <==> r.value.attr.segmentationEnabled)
    ensures r.Ok? && r.value.attr.segmentationEnabled ==> |h| >= 16
  {
    if |h| < MessageHeaderNormalLength then Err(OutOfRange)
    else
      match PhoneOf(h[4..10])
      case None => Err(PhoneParseFailed)
      case Some(phone) =>
        var attr := DecodeAttr(h[2], ReadBe16(h, 2));
        if !attr.segmentationEnabled then
          Ok(Header(ReadBe16(h, 0), attr, phone, ReadBe16(h, 10), None))
        else if |h| < 14 then Err(OutOfRange)
        else if |h| < MessageHeaderMaxLength then Err(ShortRead)
        else
          Ok(Header(ReadBe16(h, 0), attr, phone, ReadBe16(h, 10),
                    Some(SegmentInfo(ReadBe16(h, 12), ReadBe16(h, 14)))))
  }

  /** headerCodec.Decode as a sequence of reads with early error returns. */
  method Decode(h: seq<byte>) returns (r: Result<Header>)
    ensures r == DecodeHeader(h)
  {
    if |h| < MessageHeaderNormalLength {
      return Err(OutOfRange);
    }
    var messageId := ReadBe16(h, 0);
    var bcd := DecodeBCD(h[4..10]);
    var parsed := ParseUint(TrimPrefixZero(bcd));
    if parsed.None? {
      return Err(PhoneParseFailed);
    }
    var serialNum := ReadBe16(h, 10);
    var hi := h[2];
    var segmentationEnabled := (hi & 0x20) >> 5 == 1;
    var encryptionMethod := if (hi & 0x1c) >> 2 == 1 then "RSA" else "";
    var attr := BodyAttr(segmentationEnabled, hi >> 6, encryptionMethod, ReadBe16(h, 2) & 0x03ff);
    var segInfo: Option<SegmentInfo> := None;
    if segmentationEnabled {
      if |h| < 14 {
        return Err(OutOfRange);
      }
      if |h| < MessageHeaderMaxLength {
        return Err(ShortRead);
      }
      segInfo := Some(SegmentInfo(ReadBe16(h, 12), ReadBe16(h, 14)));
    }
    r := Ok(Header(messageId, attr, parsed.value, serialNum, segInfo));
  }

  /** A header whose fields fit their bit ranges, whose phone has at most 12 digits and
      whose encryption method is one Decode can produce. */
  predicate Encodable(h: Header)
  {
    && h.attr.preserved < 4
    && h.attr.bodyLength < 1024
    && h.phone < Pow10(12)
    && (h.attr.encryptionMethod == "RSA" || h.attr.encryptionMethod == "")
    && (h.segInfo.Some? <==> h.attr.segmentationEnabled)
  }

  /** The parts of the attribute word do not overlap while preserved and the body length fit
      their ranges, so Decode reads back every one of them. */
  lemma AttrRoundTrip(a: BodyAttr)
    requires a.preserved < 4 && a.bodyLength < 1024
    requires a.encryptionMethod == "RSA" || a.encryptionMethod == ""
    ensures DecodeAttr((AttrWord(a) >> 8) as bv8, AttrWord(a)) == a
  {
    PackAttrFields(a.preserved, a.segmentationEnabled, IsRsa(a.encryptionMethod), a.bodyLength);
  }

  /** The bit-level half of AttrRoundTrip, on the four parts of the word. */
  lemma PackAttrFields(preserved: bv8, segmentationEnabled: bool, rsa: bool, bodyLength: bv16)
    requires preserved < 4 && bodyLength < 1024
    ensures var w := PackAttr(preserved, segmentationEnabled, rsa, bodyLength);
      DecodeAttr((w >> 8) as bv8, w) == BodyAttr(segmentationEnabled, preserved, if rsa then "RSA" else "", bodyLength)
  {
    PackAttrHigh(preserved, segmentationEnabled, rsa, bodyLength);
    PackAttrLow(preserved, segmentationEnabled, rsa, bodyLength);
  }

  /** The flags and preserved bits come back from the high byte of the word. */
  lemma PackAttrHigh(preserved: bv8, segmentationEnabled: bool, rsa: bool, bodyLength: bv16)
    requires preserved < 4 && bodyLength < 1024
    ensures var hi := (PackAttr(preserved, segmentationEnabled, rsa, bodyLength) >> 8) as bv8;
      && ((hi & 0x20) >> 5 == 1) == segmentationEnabled
      && hi >> 6 == preserved
      && ((hi & 0x1c) >> 2 == 1) == rsa
  {
  }

  /** The body length comes back from the low ten bits of the word. */
  lemma PackAttrLow(preserved: bv8, segmentationEnabled: bool, rsa: bool, bodyLength: bv16)
    requires preserved < 4 && bodyLength < 1024
    ensures PackAttr(preserved, segmentationEnabled, rsa, bodyLength) & 0x03ff == bodyLength
  {
  }

  /** AttrRoundTrip where the attribute word sits at offset 2 of a longer buffer. */
  lemma AttrRoundTripAt(s: seq<byte>, a: BodyAttr)
    requires a.preserved < 4 && a.bodyLength < 1024
    requires a.encryptionMethod == "RSA" || a.encryptionMethod == ""
    requires |s| >= 4 && s[2] == Be16(AttrWord(a))[0] && ReadBe16(s, 2) == AttrWord(a)
    ensures DecodeAttr(s[2], ReadBe16(s, 2)) == a
  {
    AttrRoundTrip(a);
  }

  /** A body length from 1024 on is not masked by Encode: 0x2400 is read back as
      segmentation enabled, RSA encryption and length 0. */
  lemma AttrBodyLengthSpills()
    ensures AttrWord(BodyAttr(false, 0, "", 0x2400)) == AttrWord(BodyAttr(true, 0, "RSA", 0))
    ensures DecodeAttr((AttrWord(BodyAttr(false, 0, "", 0x2400)) >> 8) as bv8, AttrWord(BodyAttr(false, 0, "", 0x2400)))
            == BodyAttr(true, 0, "RSA", 0)
  {
  }

  /** A phone below 10^12 pads to exactly 12 digits that denote it. */
  lemma PaddedPhoneValue(phone: uint64)
    requires phone < Pow10(12)
    ensures |PaddedPhone(phone)| == 12 && DecimalValue(PaddedPhone(phone)) == phone
  {
    var t := DecimalText(phone);
    DecimalTextLength(phone, 12);
    DecimalTextValue(phone);
    if |t| < 12 {
      ZeroPaddingValue(12 - |t|, t);
    }
  }

  /** Decoding the 6 BCD bytes of a padded phone gives the phone back. */
  lemma PhoneRoundTrip(phone: uint64)
    requires phone < Pow10(12)
    ensures |EncodeBCD(PaddedPhone(phone))| == 6
    ensures PhoneOf(EncodeBCD(PaddedPhone(phone))) == Some(phone)
  {
    var s := PaddedPhone(phone);
    PaddedPhoneValue(phone);
    DecodeEncodeBcd(s);
    TrimPrefixZeroValue(s);
    assert |TrimPrefixZero(s)| >= 11;
  }

  /** The header is 12 bytes, or 16 with segmentation, when the phone has at most 12 digits. */
  lemma HeaderLength(h: Header)
    requires h.attr.segmentationEnabled ==> h.segInfo.Some?
    requires h.phone < Pow10(12)
    ensures |HeaderBytes(h)| == if h.attr.segmentationEnabled then MessageHeaderMaxLength else MessageHeaderNormalLength
  {
    PaddedPhoneValue(h.phone);
  }

  lemma ConcatAssoc(a: seq<byte>, b: seq<byte>, c: seq<byte>)
    ensures a + b + c == a + (b + c)
  {
  }

  /** Where the fixed fields sit in id · attribute · 6 phone bytes · serial · tail. */
  lemma FixedLayout(id: bv16, w: bv16, p: seq<byte>, serial: bv16, tail: seq<byte>)
    requires |p| == 6
    ensures var s := Be16(id) + Be16(w) + p + Be16(serial) + tail;
      && |s| == 12 + |tail| && ReadBe16(s, 0) == id && ReadBe16(s, 2) == w && s[2] == Be16(w)[0]
      && s[4..10] == p && ReadBe16(s, 10) == serial && s[12..] == tail
  {
    var s := Be16(id) + Be16(w) + p + Be16(serial) + tail;
    assert s == [] + Be16(id) + (Be16(w) + p + Be16(serial) + tail);
    ReadBe16Be16([], id, Be16(w) + p + Be16(serial) + tail);
    assert s == Be16(id) + Be16(w) + (p + Be16(serial) + tail);
    ReadBe16Be16(Be16(id), w, p + Be16(serial) + tail);
    ReadBe16Be16(Be16(id) + Be16(w) + p, serial, tail);
  }

  /** Where the segment block sits when it follows the fixed fields. */
  lemma SegmentLayout(s: seq<byte>, total: bv16, num: bv16, rest: seq<byte>)
    requires |s| >= 12 && s[12..] == (Be16(total) + Be16(num)) + rest
    ensures |s| >= 16 && ReadBe16(s, 12) == total && ReadBe16(s, 14) == num
  {
    assert s == s[..12] + Be16(total) + (Be16(num) + rest);
    ReadBe16Be16(s[..12], total, Be16(num) + rest);
    assert s == s[..12] + Be16(total) + Be16(num) + rest;
    ReadBe16Be16(s[..12] + Be16(total), num, rest);
  }

  /** Decode accepts every buffer whose fields read as those of h: the converse of the
      field-by-field description in DecodeHeader's contract. */
  lemma DecodeHeaderOfFields(s: seq<byte>, h: Header)
    requires |s| >= 12 && ReadBe16(s, 0) == h.messageId && ReadBe16(s, 10) == h.serialNum
    requires PhoneOf(s[4..10]) == Some(h.phone) && DecodeAttr(s[2], ReadBe16(s, 2)) == h.attr
    requires h.segInfo.Some? <==> h.attr.segmentationEnabled
    requires h.attr.segmentationEnabled ==>
      |s| >= 16 && h.segInfo.value == SegmentInfo(ReadBe16(s, 12), ReadBe16(s, 14))
    ensures DecodeHeader(s) == Ok(h)
  {
  }

  /** Where Encode puts every field of h, whatever follows the header. */
  lemma HeaderBytesLayout(h: Header, rest: seq<byte>)
    requires h.attr.segmentationEnabled ==> h.segInfo.Some?
    requires h.phone < Pow10(12)
    ensures var s := HeaderBytes(h) + rest;
      && |s| >= 12 && ReadBe16(s, 0) == h.messageId && ReadBe16(s, 10) == h.serialNum
      && s[4..10] == EncodeBCD(PaddedPhone(h.phone))
      && ReadBe16(s, 2) == AttrWord(h.attr) && s[2] == Be16(AttrWord(h.attr))[0]
      && (h.attr.segmentationEnabled ==>
            |s| >= 16 && ReadBe16(s, 12) == h.segInfo.value.totalSegments
            && ReadBe16(s, 14) == h.segInfo.value.segmentNum)
  {
    var w := AttrWord(h.attr);
    var p := EncodeBCD(PaddedPhone(h.phone));
    PhoneRoundTrip(h.phone);
    var seg := if h.attr.segmentationEnabled
               then Be16(h.segInfo.value.totalSegments) + Be16(h.segInfo.value.segmentNum)
               else [];
    var bytes := HeaderBytes(h) + rest;
    ConcatAssoc(Be16(h.messageId) + Be16(w) + p + Be16(h.serialNum), seg, rest);
    FixedLayout(h.messageId, w, p, h.serialNum, seg + rest);
    if h.attr.segmentationEnabled {
      SegmentLayout(bytes, h.segInfo.value.totalSegments, h.segInfo.value.segmentNum, rest);
    }
  }

  /** Header round trip: Decode(Encode(h)) == h, whatever follows the header. */
  lemma HeaderRoundTrip(h: Header, rest: seq<byte>)
    requires Encodable(h)
    ensures DecodeHeader(HeaderBytes(h) + rest) == Ok(h)
  {
    var bytes := HeaderBytes(h) + rest;
    HeaderBytesLayout(h, rest);
    PhoneRoundTrip(h.phone);
    AttrRoundTripAt(bytes, h.attr);
    DecodeHeaderOfFields(bytes, h);
  }

  /** Only a phone field whose text exceeds the uint64 range fails to parse; a field of
      decimal nibbles (at most 12 digits) always parses. */
  lemma PhoneParseFailure(phoneBytes: seq<byte>)
    ensures PhoneOf(phoneBytes).None? <==>
      (|phoneBytes| == 0 || DecimalValue(TrimPrefixZero(BcdText(phoneBytes))) >= Uint64Limit)
  {
    BcdTextLength(phoneBytes);
    TrimPrefixZeroValue(BcdText(phoneBytes));
  }

  /** The BCD text of the phone field of the attribute test below. */
  lemma SamplePhoneText()
    ensures BcdText([0x01, 0x91, 0x61, 0x01, 0x70, 0x01]) == "019161017001"
  {
    var e := EncodeBCD("019161017001");
    assert e[0] == 0x01 && e[1] == 0x91 && e[2] == 0x61 && e[3] == 0x01 && e[4] == 0x70 && e[5] == 0x01;
    assert e == [0x01, 0x91, 0x61, 0x01, 0x70, 0x01];
    DecodeEncodeBcd("019161017001");
  }

  /** The uint64 that ParseUint makes of the trimmed phone text, in three parts. */
  lemma SamplePhoneValue()
    ensures DecimalValue("19161017001") == 19161017001
  {
    SamplePhoneHigh();
    SamplePhoneLow();
    DecimalValueConcat("19161", "017001");
    assert "19161" + "017001" == "19161017001";
    assert Pow10(6) == 1000000;
  }

  lemma SamplePhoneHigh()
    ensures DecimalValue("19161") == 19161
  {
    var s := "19161";
    assert DecimalValue(s[..1]) == 1 by { assert s[..1][..0] == []; }
    assert DecimalValue(s[..2]) == 19 by { assert s[..2][..1] == s[..1]; }
    assert DecimalValue(s[..3]) == 191 by { assert s[..3][..2] == s[..2]; }
    assert DecimalValue(s[..4]) == 1916 by { assert s[..4][..3] == s[..3]; }
    assert s[..5] == s && s[..5][..4] == s[..4];
  }

  lemma SamplePhoneLow()
    ensures DecimalValue("017001") == 17001
  {
    var s := "017001";
    assert DecimalValue(s[..1]) == 0 by { assert s[..1][..0] == []; }
    assert DecimalValue(s[..2]) == 1 by { assert s[..2][..1] == s[..1]; }
    assert DecimalValue(s[..3]) == 17 by { assert s[..3][..2] == s[..2]; }
    assert DecimalValue(s[..4]) == 170 by { assert s[..4][..3] == s[..3]; }
    assert DecimalValue(s[..5]) == 1700 by { assert s[..5][..4] == s[..4]; }
    assert s[..6] == s && s[..6][..5] == s[..5];
  }

  /** The phone field of the attribute test below. */
  lemma SamplePhone()
    ensures PhoneOf([0x01, 0x91, 0x61, 0x01, 0x70, 0x01]) == Some(19161017001)
  {
    SamplePhoneText();
    SamplePhoneValue();
    assert TrimPrefixZero("019161017001") == "19161017001";
  }

  /** The attribute test of the header codec: 0200 e408 019161017001 0000 0030 0010 reads
      as message id 512, preserved 3, segmentation, RSA, body length 8, phone 19161017001,
      serial number 0 and segment block 48 / 16. */
  lemma DecodeHeaderAttrSample()
    ensures DecodeHeader([0x02, 0x00, 0xe4, 0x08, 0x01, 0x91, 0x61, 0x01, 0x70, 0x01,
                          0x00, 0x00, 0x00, 0x30, 0x00, 0x10])
         == Ok(Header(512, BodyAttr(true, 3, "RSA", 8), 19161017001, 0, Some(SegmentInfo(48, 16))))
  {
    var h: seq<byte> := [0x02, 0x00, 0xe4, 0x08, 0x01, 0x91, 0x61, 0x01, 0x70, 0x01,
                         0x00, 0x00, 0x00, 0x30, 0x00, 0x10];
    assert h[4..10] == [0x01, 0x91, 0x61, 0x01, 0x70, 0x01];
    SamplePhone();
    assert DecodeAttr(h[2], ReadBe16(h, 2)) == BodyAttr(true, 3, "RSA", 8);
    DecodeHeaderOfFields(h, Header(512, BodyAttr(true, 3, "RSA", 8), 19161017001, 0, Some(SegmentInfo(48, 16))));
  }
}
