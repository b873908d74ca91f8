# JT/T 808 message codec, modelled in Dafny

This project models the byte-level codec of a Go implementation of JT/T 808-2013, the Chinese
road-transport vehicle-terminal protocol, and proves properties of the model. It covers:

- the frame layer: the 0x7e delimiters, byte stuffing (0x7e ↔ 0x7d 0x02, 0x7d ↔ 0x7d 0x01)
  and the XOR checksum;
- the message header: message id, the 16-bit body attribute, the 12-digit BCD phone, the
  serial number and the optional segment block;
- the body codecs the message decoder dispatches to: the 5-byte general responses (ids
  0x0001 and 0x8001) and the location report (0x0200), with its 28-byte basic block and its
  walk over the additional-info records (WiFi list 0x54, battery 0x56, any other id verbatim);
- the older duplicate body codecs of the `codec` package (location, WiFi, battery, response).
  The older location, WiFi and battery codecs share the model of the live ones: they differ
  only in the float and time formatting, the hex views and the body bytes the live location
  body keeps, all of which are left out or kept apart (`LocationCodec.LegacyLocationBody`).
  The older response encoder is server-only and fails with its own error
  (`ResponseCodec.LegacyResponseEncoding`).

Modules, one per part of the program:

| module | file | models |
|---|---|---|
| `Bytes` | bytes.dfy | bytes, big-endian uint16/uint32 writes and reads |
| `Protocol` | protocol.dfy | the message, header, body and additional-info types, the constants and errors |
| `Frame`, `Checksum` | frame.dfy | escape, unescape, trimIdentifiers, checksum, checksumVerified |
| `Bcd`, `Decimal` | bcd.dfy, decimal.dfy | EncodeBCD, DecodeBCD, and the decimal text and parsing the header uses |
| `HeaderCodec` | header_codec.dfy | headerCodec.Encode and headerCodec.Decode |
| `ResponseCodec` | response.dfy | the client, server and older response codecs |
| `AdditionalInfoCodec` | additional_info.dfy | the WiFi, battery and unknown decoders; the record walk |
| `LocationCodec` | location.dfy | the basic-block decoder and the location body codec, both generations |
| `MessageCodec` | codec.dfy | codec.Encode and codec.Decode |

Conventions of the model:

- A byte is `bv8`; uint16 and uint32 fields are `bv16` and `bv32`, so Go's wrap-around on
  `uint8` (the WiFi signal negation, the `Length()` accessors) is exact.
- Where the Go code indexes or slices past the end of its data and would panic, the model
  returns `Err(OutOfRange)`. A nil `SegInfo` dereferenced by Encode returns `Err(NilPointer)`; the header and its `Attr`
  are never nil in the model.
  A short `binary.Read` returns `Err(ShortRead)`.
- The imperative Go functions (escape, unescape, checksum, DecodeBCD, the header encoder and
  decoder, the response encoders, the record walk, the WiFi loop, the basic-block decoder,
  codec.Encode and codec.Decode) are methods with loops where the Go code loops. Each method
  is proved equal to a specification function, and the properties are lemmas about those
  functions.
- `time.Parse` is a parameter, `parseTime: string -> Option<int>`. It receives exactly the
  text the Go code builds: "20", the BCD digits of bytes 22-27 with one leading '0' trimmed,
  then "+0800".

Where the documentation and the code differ, the model follows the code:

- unescape copies a 0x7d that is followed by a byte other than 0x01 or 0x02, and keeps scanning
  from the next byte (`Frame.UnescapePassThrough`);
- Decode never compares the header's body length with the size of the body;
- the year digits of 2000-2009 lose their leading zero, so the time text is 13 digits long
  (`LocationCodec.TimeTextYearQuirk`);
- the server response's Decode discards the body, so an encoded server response decodes
  without its body (`MessageCodec.ServerResponseRoundTrip`).

## Model

| member | source | states |
|---|---|---|
| `Frame.Escaped` | codec/codec.go:95-109 | the stuffed bytes never contain 0x7e, and they are longer than the input by one byte per 0x7e or 0x7d |
| `Frame.EscapedConcat` | codec/codec.go:99-107 | each byte is escaped on its own and in order: escaping a concatenation concatenates the escapes |
| `Frame.Escape` | codec/codec.go:95-109 | the append loop returns exactly the stuffed form: 0x7e as 7d 02, 0x7d as 7d 01, any other byte copied |
| `Frame.Unescape` | codec/codec.go:111-127 | the index loop, with its extra step after an escape pair, returns the unstuffed bytes; it fails exactly when it reaches a 0x7d in the last position |
| `Frame.UnescapeEscape` | codec/codec.go:95-127 | unescape(escape(x)) == x for every byte sequence x |
| `Frame.UnescapePassThrough` | codec/codec.go:115-125 | 0x7d followed by a byte other than 0x01/0x02 is copied unchanged, and the scan continues at the following byte |
| `Frame.UnescapeTrailingMark` | codec/codec.go:116 | a trailing lone 0x7d makes unescape read past the end, whatever precedes it |
| `Frame.TrimFramed` | codec/codec.go:206-214 | trimIdentifiers strips the leading and the trailing 0x7e of a framed message and leaves the inside unchanged |
| `Frame.TrimUnframed` | codec/codec.go:206-214 | data that neither starts nor ends with 0x7e is returned unchanged |
| `Checksum.Checksum` | codec/codec.go:130-137 | the fold that starts from the first byte returns the XOR of all the bytes |
| `Checksum.XorSumConcat` | codec/codec.go:130-137 | the checksum of a concatenation is the XOR of the parts' checksums |
| `Checksum.AppendedChecksumVerifies` | codec/codec.go:140-147 | appending checksum(x) to a non-empty x makes checksumVerified return that byte and true |
| `Checksum.ChecksumDetectsPayloadCorruption` | codec/codec.go:140-147 | flipping any bits of one payload byte of a verified message makes it fail the check |
| `Checksum.ChecksumDetectsChecksumCorruption` | codec/codec.go:140-147 | flipping any bits of the checksum byte makes the message fail the check |
| `Checksum.ChecksumMissesPairedCorruption` | codec/codec.go:140-147 | the XOR checksum cannot see the same bit flip in two payload bytes |
| `Bcd.BcdText` | utils/bcd.go:15-27 | the decoded text consists of decimal digits |
| `Bcd.DecodeBCD` | utils/bcd.go:15-27 | the loop returns, byte by byte and in order, the decimal text of the high nibble then of the low nibble |
| `Bcd.BcdTextLength` | utils/bcd.go:19-24 | the text has two characters per byte plus one per nibble above 9, which Itoa prints as "10" to "15" |
| `Bcd.BcdTextOfDecimal` | utils/bcd.go:19-24 | with decimal nibbles only, the text has exactly 2·len(data) digits, digit 2k and 2k+1 being the nibbles of byte k |
| `Bcd.EncodeBCD` | utils/bcd.go:9-12 | a decimal string packs into half as many bytes (an odd last digit is dropped) |
| `Bcd.PackedNibbles` | utils/bcd.go:9-12 | the first digit of a pair is the high nibble of its byte and the second the low nibble |
| `Bcd.DecodeEncodeBcd` | utils/bcd.go:9-27 | DecodeBCD(EncodeBCD(s)) == s for every even-length decimal string |
| `Bcd.EncodeDecodeBcd` | utils/bcd.go:9-27 | EncodeBCD(DecodeBCD(b)) == b whenever every nibble of b is at most 9 |
| `Bcd.RepackByte` | utils/bcd.go:9-27 | a byte of two decimal nibbles, printed and packed again, is itself |
| `Bcd.EncodeBcdOddExample` | utils/bcd.go:8-12 | the doc example "12345" packs to 0x12 0x34 |
| `Bcd.DecodeBcdDocExample` | utils/bcd.go:14-27 | the doc example: bytes 0x161017102756 decode to "161017102756" |
| `Bcd.EncodeBcdTimeExample` | utils/bcd.go:9-14 | "161017102756" packs back to the doc example's bytes |
| `Decimal.DecimalTextValue` | codec/header_codec.go:46-53 | the decimal text Sprintf("%d") prints for n denotes n |
| `Decimal.DecimalTextLength` | codec/header_codec.go:46-53 | a number below 10^k prints with at most k digits |
| `Decimal.ZeroPaddingValue` | codec/header_codec.go:48-52 | prepending '0's keeps the decimal value |
| `Decimal.TrimPrefixZeroValue` | codec/header_codec.go:99-105 | strings.TrimPrefix(s, "0") removes at most one '0' and keeps the decimal value |
| `Decimal.DecimalValueConcat` | codec/header_codec.go:99-105 | the value of a concatenation is the left part shifted by the width of the right part, plus the right part |
| `HeaderCodec.BuildAttr` | codec/header_codec.go:28-36 | the OR sequence yields Preserved<<14, 0x2000 when segmented, 0x0400 for "RSA", OR the body length |
| `HeaderCodec.DecodeAttr` | codec/header_codec.go:113-129 | the decoded preserved bits are below 4, the body length below 1024, and the method is "RSA" or empty |
| `HeaderCodec.AttrRoundTrip` | codec/header_codec.go:28-129 | with preserved < 4, body length < 1024 and method "RSA" or empty, Decode reads the attribute Encode wrote |
| `HeaderCodec.PackAttrFields` | codec/header_codec.go:28-36 | with preserved < 4 and body length < 1024 the four parts OR-ed into the word are read back unchanged by Decode |
| `HeaderCodec.AttrBodyLengthSpills` | codec/header_codec.go:28-36 | a body length of 0x2400 is not masked and reads back as segmentation plus RSA with length 0 |
| `HeaderCodec.PadPhone` | codec/header_codec.go:46-53 | the padding loop prepends '0's to the decimal phone until it has 12 digits |
| `HeaderCodec.PaddedPhoneValue` | codec/header_codec.go:46-53 | a phone below 10^12 pads to exactly 12 digits that denote it |
| `HeaderCodec.PhoneRoundTrip` | codec/header_codec.go:46-105 | the 6 BCD phone bytes Encode writes decode, after the one-zero trim and ParseUint, to the phone |
| `HeaderCodec.PhoneParseFailure` | codec/header_codec.go:99-105 | the phone field fails to parse exactly when its text, one '0' trimmed, is empty or denotes a number outside the uint64 range |
| `HeaderCodec.Encode` | codec/header_codec.go:17-83 | the appends produce id, attribute, BCD phone, serial, then total segments and segment number when segmented, all big-endian |
| `HeaderCodec.HeaderLength` | codec/header_codec.go:17-83 | the encoded header is 12 bytes, or 16 with segmentation, for a phone below 10^12 |
| `HeaderCodec.HeaderBytesLayout` | codec/header_codec.go:17-83 | each field of the header sits at its offset, whatever follows the header |
| `HeaderCodec.DecodeHeader` | codec/header_codec.go:85-149 | a decoded header has the id and serial read big-endian at 0 and 10, the phone parsed from bytes 4-9, and a segment block exactly when the segmentation bit is set, which needs 16 bytes |
| `HeaderCodec.Decode` | codec/header_codec.go:85-149 | the field-by-field reads with their early error returns compute the decoded header |
| `HeaderCodec.DecodeHeaderOfFields` | codec/header_codec.go:85-149 | Decode accepts every buffer whose fields read as those of a given header, and returns that header |
| `HeaderCodec.HeaderRoundTrip` | codec/header_codec.go:17-149 | Decode(Encode(h) ++ rest) == h when preserved < 4, body length < 1024, phone < 10^12, method "RSA" or empty and a segment block exactly when segmented |
| `HeaderCodec.SamplePhone` | codec/codec_test.go:21-36 | the test's phone bytes 01 91 61 01 70 01 read as 19161017001 |
| `HeaderCodec.DecodeHeaderAttrSample` | codec/codec_test.go:21-36 | hex 0200e408019161017001000000300010 decodes to id 512, preserved 3, RSA, body length 8, phone 19161017001, serial 0, 48 segments, segment 16 |
| `ResponseCodec.ResponseBytes` | codec/response/codec.go:34-38 | the body is 5 bytes: serial and id big-endian, then the result byte as it is |
| `ResponseCodec.ResponseBytesInjective` | codec/response/codec.go:34-38 | the 5 bytes determine serial, id and result |
| `ResponseCodec.WriteResponse` | codec/response/codec.go:34-38 | the buffer writes produce the 5-byte layout |
| `ResponseCodec.ClientResponseEncoding` | codec/response/codec.go:27-39 | the client encoder accepts exactly a client response and writes its 5 bytes; any other body is BodyNotClientResponse |
| `ResponseCodec.EncodeClientResponse` | codec/response/codec.go:27-39 | the client Encode computes the client encoding |
| `ResponseCodec.ServerResponseEncoding` | codec/response/codec.go:53-65 | the server encoder accepts exactly a server response and writes its 5 bytes; any other body is BodyNotServerResponse |
| `ResponseCodec.EncodeServerResponse` | codec/response/codec.go:53-65 | the server Encode computes the server encoding |
| `ResponseCodec.ClientAndServerLayoutsAgree` | codec/response/codec.go:27-65 | a client and a server response with the same fields encode to the same bytes |
| `ResponseCodec.ResponseDecodeDiscards` | codec/response/codec.go:67-69 | Decode of any bytes, and in particular of the 5 bytes a server response encodes to, returns no body and no error, so the response is not given back |
| `ResponseCodec.LegacyResponseEncoding` | codec/response_codec.go:17-28 | the older encoder accepts exactly a server response and writes the same 5 bytes; any other body is BodyNotResponse |
| `ResponseCodec.EncodeLegacyResponse` | codec/response_codec.go:17-28 | the older Encode computes the older encoding |
| `ResponseCodec.ServerAndLegacyAgree` | codec/response_codec.go:17-32 | the older and the live server encoders accept the same bodies and write the same bytes |
| `AdditionalInfoCodec.SignalStrength` | codec/location/wifi_codec.go:59 | ^raw + 1 on a uint8 is 0 - raw modulo 256, and is 0 exactly for 0 |
| `AdditionalInfoCodec.SignalStrengthExamples` | codec/location/wifi_codec.go:59 | 0xC8 gives 0x38 and 0 gives 0 |
| `AdditionalInfoCodec.WifiInfo` | codec/location/wifi_codec.go:48-64 | the decoder succeeds exactly when the payload holds the count byte N and 7·N bytes after it, and otherwise reads out of range (codec/wifi_codec.go:47-63 is the same) |
| `AdditionalInfoCodec.WifiInfoShape` | codec/location/wifi_codec.go:21-64 | a decoded item has id 0x54, keeps the payload as its info, holds exactly N entries, and entry k is the MAC of bytes 1+7k..7+7k with the negated signal byte after them |
| `AdditionalInfoCodec.WifiListEntries` | codec/location/wifi_codec.go:56-61 | the list is the first N entries in record order; bytes after 1+7N are not read |
| `AdditionalInfoCodec.DecodeWifis` | codec/location/wifi_codec.go:48-64 | the append loop computes the decoder's result |
| `AdditionalInfoCodec.WifiRoundTrip` | codec/location/wifi_codec.go:48-64 | a count byte followed by 7-byte entries of 6-byte MACs decodes back to those entries and that payload |
| `AdditionalInfoCodec.WifiLength` | codec/location/wifi_codec.go:25-27 | Length() is 7·N + 1 when that fits a byte |
| `AdditionalInfoCodec.WifiLengthWraps` | codec/wifi_codec.go:24-26 | Length() wraps modulo 256: 37 entries give 4 |
| `AdditionalInfoCodec.BatteryInfo` | codec/location/battery_codec.go:37-43 | the battery decoder succeeds exactly on payloads of two bytes or more and otherwise reads out of range |
| `AdditionalInfoCodec.BatteryInfoShape` | codec/battery_codec.go:14-43 | a decoded battery has id 0x56, length 3 whatever the payload, the payload as its info, percentage payload[0] and extension payload[1] (the same in codec/location/battery_codec.go) |
| `AdditionalInfoCodec.UnknownInfoOf` | codec/location/unknown_info_codec.go:42-50 | the unknown decoder succeeds exactly on records of two bytes or more |
| `AdditionalInfoCodec.UnknownInfoShape` | codec/location/unknown_info_codec.go:15-50 | [Id(), Length()] ++ Info() rebuilds the record it was decoded from |
| `AdditionalInfoCodec.RecordInfoShape` | codec/location/codec.go:105-135 | id 0x54 gives a WiFi item and 0x56 a battery item of the payload; any other id an unknown item of the whole record, whose body has the declared length |
| `AdditionalInfoCodec.DecodeRecord` | codec/location/codec.go:105-135 | the switch on the id computes the record's item |
| `AdditionalInfoCodec.DecodeAdditionalInfo` | codec/location/codec.go:100-139 | the cursor loop computes the walk: one item per record in stream order, and the first sub-decoder error aborts it |
| `AdditionalInfoCodec.RecordInfoKeepsRecords` | codec/location/codec.go:105-135 | every item the sub-decoders return keeps the record's id and payload |
| `AdditionalInfoCodec.AdditionalInfosTile` | codec/location/codec.go:100-139 | after a successful walk the records of the items, written id, length, info, rebuild the buffer exactly: the walk ends at len(data) |
| `AdditionalInfoCodec.WalkTile` | codec/location/codec.go:100-139 | from any cursor, a successful walk's items tile the rest of the buffer |
| `AdditionalInfoCodec.WalkLengths` | codec/location/codec.go:100-139 | every item of a successful walk has an info shorter than 256 bytes |
| `AdditionalInfoCodec.RecordInfoKeepsUnknowns` | codec/location/unknown_info_codec.go:42-50 | a record with an id other than 0x54 and 0x56 comes back as the unknown item it was written from |
| `AdditionalInfoCodec.UnknownRecordsRoundTrip` | codec/location/codec.go:100-139 | a run of records of unknown ids, each with its declared length, walks back to exactly those items |
| `AdditionalInfoCodec.UnknownRecordsFrom` | codec/location/codec.go:100-139 | the same from any cursor that a prefix leaves |
| `AdditionalInfoCodec.TlvExample` | codec/location/codec.go:100-139 | a WiFi record of length 8 with one entry, then a record 0x99 of length 0, walk to those two items |
| `AdditionalInfoCodec.TruncatedRecords` | codec/location/codec.go:101-137 | a lone trailing id byte after good records makes the walk fail; so does a length that overruns, which in Go panics only when the slice has no spare capacity behind it (see "## Left out") |
| `AdditionalInfoCodec.TrailingByte` | codec/location/codec.go:101-137 | the same from any cursor |
| `LocationCodec.BasicInfoOf` | codec/location/codec.go:40-98 | the basic decoder succeeds exactly when the block has the 22 field bytes and the time text parses; shorter data reads out of range, and a failed parse is TimeParseFailed |
| `LocationCodec.DecodeBasicInfo` | codec/location/codec.go:40-98 | the field-by-field reads, the BCD of bytes 22.., the one-zero trim and the "20"/"+0800" wrapping compute the basic decoder's result |
| `LocationCodec.BasicBytes` | codec/location/codec.go:40-87 | the written block is 22 field bytes followed by the time bytes |
| `LocationCodec.BasicLayout` | codec/location/codec.go:40-87 | alert at 0, state at 4, latitude at 8, longitude at 12 (uint32), altitude at 16, speed at 18, direction at 20 (uint16), all big-endian, then the time bytes at 22 |
| `LocationCodec.BasicRoundTrip` | codec/location/codec.go:40-98 | a written block whose time text parses to b's instant decodes back to b |
| `LocationCodec.BasicTile` | codec/location/codec.go:40-98 | a decoded block, written back with its time bytes, is the block it was decoded from |
| `LocationCodec.TimeTextDigits` | codec/location/codec.go:89-90 | with decimal time bytes the text has 12 digits after "20" when the year's first digit is not 0, and 11 when it is |
| `LocationCodec.TimeTextExample` | codec/location/codec.go:89-90 | the time bytes 161017102756 give "20161017102756+0800" |
| `LocationCodec.TimeTextYearQuirk` | codec/location/codec.go:89 | the year 2009 loses its zero: 091017102756 gives "2091017102756+0800" |
| `LocationCodec.LocationOf` | codec/location/codec.go:145-169 | a body under 28 bytes reads out of range; a decoded body keeps the bytes it came from |
| `LocationCodec.DecodeLocation` | codec/location/codec.go:145-169 | the split at byte 28 and the two sub-decoders, each error aborting, compute the body decoder's result |
| `LocationCodec.LocationParts` | codec/location/codec.go:145-169 | a body decodes exactly when its first 28 bytes and its remaining records do, and then holds what they decode to |
| `LocationCodec.LocationRoundTrip` | codec/location/codec.go:145-169 | a written basic block followed by records of unknown ids decodes to that block and those records |
| `LocationCodec.EncodeLocationNotInverse` | codec/location/codec.go:141-143 | the Encode stub returns no bytes, which Decode refuses as out of range |
| `LocationCodec.DecodeLegacyLocation` | codec/location_codec.go:163-181 | the older body decoder computes its specification: basic block of the first 28 bytes, records of the rest |
| `LocationCodec.LegacyAgrees` | codec/location_codec.go:38-181 | the older decoder, with raw uint32 latitude and longitude, succeeds and fails on the same bodies as the live one, with the same error and the same basic block and records; both are built on one shared model of the basic block and the record walk, so this holds by construction |
| `MessageCodec.Framed` | codec/codec.go:79-85 | a frame starts and ends with 0x7e and has no 0x7e in between |
| `MessageCodec.MessageBytes` | codec/codec.go:52-88 | Encode succeeds exactly for id 0x8001 with a server response body and a segment block when segmented; then its output is a frame; a nil segment block when segmented fails first |
| `MessageCodec.Encode` | codec/codec.go:52-88 | the buffer is header, body, checksum, escaped and framed: Encode computes MessageBytes |
| `MessageCodec.EncodeUnframes` | codec/codec.go:79-85 | trimIdentifiers then unescape of an Encode output give header ++ body ++ checksum, which passes checksumVerified |
| `MessageCodec.Unframed` | codec/codec.go:216-221 | trimming and unescaping fail only by reading out of range, and a successful payload has at least 2 bytes |
| `MessageCodec.BodyOf` | codec/codec.go:236-360 | id 0x0200 decodes to a location body and 0x0001/0x8001 to no body |
| `MessageCodec.PayloadMessage` | codec/codec.go:221-365 | a message decoded from a payload has identifier 0x7e, an id among 0x0001, 0x8001 and 0x0200, a body that matches the id, and the payload's last byte as checksum, equal to the XOR of the bytes before it |
| `MessageCodec.MessageOf` | codec/codec.go:216-366 | empty data reads out of range; a decoded message has identifier 0x7e, a dispatched id and the body kind of that id |
| `MessageCodec.Decode` | codec/codec.go:216-366 | trim, unescape, checksum, header, dispatch, body slice and body decode compute MessageOf |
| `MessageCodec.Reframed` | codec/codec.go:216-221 | any payload of two bytes or more, escaped and framed, reaches the payload stage unchanged |
| `MessageCodec.DecodedMessage` | codec/codec.go:221-365 | a decoded message's header is the decode of the first 16 payload bytes, its checksum is the last byte, and its body is decoded from bytes [16 or 12, len-1) |
| `MessageCodec.PayloadHeader` | codec/codec.go:229-353 | the payload Encode builds passes the checksum, its first 16 bytes decode to the header, and the body slice is the body |
| `MessageCodec.FrameDecodes` | codec/codec.go:216-366 | the frame of an encodable header with a dispatched id decodes to that header, the body the id's codec makes of the body bytes, and the checksum Encode appended |
| `MessageCodec.ServerResponseRoundTrip` | codec/codec.go:52-366 | Encode then Decode of a server response gives back its header and checksum, with no body |
| `MessageCodec.LocationFrameRoundTrip` | codec/codec.go:216-366 | a framed location report of a basic block and unknown-id records decodes to that block and those records |
| `MessageCodec.ChecksumFailure` | codec/codec.go:221-225 | a payload whose checksum does not match is refused with ChecksumFailed before the header is read |
| `MessageCodec.CorruptedPayloadRejected` | codec/codec.go:221-225 | a payload byte changed in transit makes Decode return ChecksumFailed |
| `MessageCodec.CorruptedChecksumRejected` | codec/codec.go:221-225 | a changed checksum byte makes Decode return ChecksumFailed |
| `MessageCodec.UnsupportedIdRejected` | codec/codec.go:236-346 | a frame whose header has an id other than 0x0001, 0x8001 and 0x0200 is refused with MessageIdNotSupported |

## Left out

- TCP servers and clients, goroutines, timers and the byte-at-a-time framer of the server are
  outside the codec. Decode is modelled as receiving the bytes of one frame.
- Logging: every `logger` call is left out; it does not change any result.
- Go slicing within capacity: a slice expression `s[:n]` with `len(s) < n <= cap(s)` does not
  panic in Go. The model treats every read past the length as `Err(OutOfRange)`. This covers
  the 16-byte header slice of Decode and the 28-byte split of the location body, and also the
  record slices of the additional-info walk (codec/location/codec.go:108,117,128 and
  codec/location_codec.go:105,113,122). On Decode's path the body is
  `unescapedData[12 or 16 : len-1]` (codec/codec.go:348-353), so the checksum byte always lies
  within capacity behind it. A last record whose length claims one byte more than remains is
  then decoded in Go with the checksum byte as its payload, and the walk ends because the
  cursor passed the length: Go accepts such a frame, and the model (`MessageCodec.MessageOf`,
  `AdditionalInfoCodec.AdditionalInfos`) rejects it with `Err(OutOfRange)`. Which frames Go
  accepts this way depends on the capacity of the buffers, which the model does not track.
- Nil pointers other than `SegInfo`: Go's `Message.H` and `Header.Attr` are pointers, and
  `headerCodec.Encode` dereferences `Attr` unchecked (codec/header_codec.go:29-36), so Encode
  panics on a nil header or attribute. In the model the header and its attribute are values
  and always present.
- `time.Parse` and calendar arithmetic are a parameter (`parseTime`). The live codec's
  formatting of the instant, and the older codec's conversion to Unix seconds, are inside that
  parameter.
- Floating point: the live codec's latitude and longitude divided by 1e6 as float32 are not
  modelled. Both generations keep the raw uint32 values.
- The `Human()` methods, JSON marshalling and hex string views produce text for people, not
  protocol bytes.
- The MAC addresses of WiFi entries are kept as their 6 raw bytes. The formatting through
  `net.HardwareAddr` is text only.
- The unused header decoder inside codec/codec.go is never called. Decode uses the header codec
  of codec/header_codec.go.
- The shared mutable `c.body` field is a concurrency hazard between calls. The model picks
  the body codec as a value inside each call, which is what a single call does.
- RSA: only the attribute flag is read and written; no encryption is applied.
- codec/unknown_info_codec.go is not part of this model. The older walk calls it on the
  record `data[i : i+1+length+1]`, the same bytes the live walk passes. The model assumes it
  behaves like codec/location/unknown_info_codec.go.
- `AdditionalInfoCodec.Records`, the record writer used by the tiling lemmas, writes the length
  byte as the payload size modulo 256, as Go's `uint8` conversion would. The Go code has no
  record encoder.
- `AdditionalInfoCodec.WifiLength` is stated for lists whose 7·N + 1 fits a byte. The
  wrap-around is shown by `AdditionalInfoCodec.WifiLengthWraps` for one size only.
- `LocationCodec.LocationRoundTrip` and `MessageCodec.LocationFrameRoundTrip` are stated for
  records of unknown ids only. A WiFi record's `Length()` is recomputed from its entry count,
  and a battery's is the constant 3, so those records are not rebuilt from their items.
  `AdditionalInfoCodec.AdditionalInfosTile` covers every successful walk.
- `MessageCodec.FrameDecodes` requires the payload to be at least 16 bytes long. A shorter
  payload reaches Go's header slice within capacity, which is covered by the slicing item above.
- The end-to-end sample frame of codec/codec_test.go:10-19 is not evaluated by the verifier.
  Its hex literal (line 12) unescapes to 342 bytes whose last byte, 0x3a, is the XOR of the
  others. The header is the 12-byte one of a location report (0x0200, not segmented, body
  length 329). After the 28-byte basic block come three records: 0x54 with length 71 (10 WiFi
  entries), 0xef with length 123 and 0xfe with length 101. They fill the body exactly, so no
  record overruns into the checksum byte (the capacity case above), and there is no battery
  record. Its pieces are covered separately: the framing and checksum lemmas, the header
  sample, `AdditionalInfoCodec.TlvExample` and the WiFi and walk lemmas.
