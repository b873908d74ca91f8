/** The location additional-info records: the WiFi (0x54), battery (0x56) and unknown-id
    sub-decoders of codec/location, and the walk over id · length · payload records.
    The older codec/wifi_codec.go, codec/battery_codec.go and the walk of
    codec/location_codec.go do the same and share this model. */
module AdditionalInfoCodec {
  import opened Bytes
  import opened Protocol

  /** ^raw + 1 on a uint8: the two's-complement negation of the raw signal byte. */
  function SignalStrength(raw: byte): (s: byte)
    ensures s == 0 - raw
    ensures raw == 0 <==> s == 0
  {
    !raw + 1
  }

  /** Entry k of the list that follows the count byte: 6 MAC bytes, then the signal byte. */
  function WifiAt(entries: seq<byte>, k: nat): (w: Wifi)
    requires 7 * k + 7 <= |entries|
    ensures |w.macAddress| == 6
  {
    Wifi(entries[7 * k..7 * k + 6], SignalStrength(entries[7 * k + 6]))
  }

  /** The first n entries, in order. */
  function WifiList(entries: seq<byte>, n: nat): (ws: seq<Wifi>)
    requires 7 * n <= |entries|
    ensures |ws| == n
  {
    if n == 0 then [] else WifiList(entries, n - 1) + [WifiAt(entries, n - 1)]
  }

  lemma {:induction false} WifiListEntries(entries: seq<byte>, n: nat)
    requires 7 * n <= |entries|
    ensures forall k :: 0 <= k < n ==> WifiList(entries, n)[k] == WifiAt(entries, k)
  {
    if n > 0 {
      WifiListEntries(entries, n - 1);
    }
  }

  /** wifiCodec.Decode: payload[0] is the count N, then N records of 7 bytes; bytes past the
      last record are ignored.  An empty payload, or one too short for N records, makes Go
      index past the end. */
  function WifiInfo(payload: seq<byte>): (r: Result<AdditionalInfo>)
    ensures r.Ok? <==> |payload| >= 1 && |payload| >= 1 + 7 * payload[0] as int
    ensures r.Err? ==> r.error == OutOfRange
  {
    if |payload| == 0 || |payload| < 1 + 7 * payload[0] as int then Err(OutOfRange)
    else Ok(Wifis(WifiList(payload[1..], payload[0] as int), payload))
  }

  /** A decoded WiFi item: id 0x54, the payload as its info, exactly N entries, entry k taken
      from record k. */
  lemma WifiInfoShape(payload: seq<byte>)
    requires WifiInfo(payload).Ok?
    ensures WifiInfo(payload).value.Wifis? && WifiInfo(payload).value.Id() == WifiInfoId
    ensures WifiInfo(payload).value.Info() == payload
    ensures |WifiInfo(payload).value.wifis| == payload[0] as int
    ensures forall k :: 0 <= k < |WifiInfo(payload).value.wifis| ==>
      WifiInfo(payload).value.wifis[k] == WifiAt(payload[1..], k)
  {
    WifiListEntries(payload[1..], payload[0] as int);
  }

  /** wifiCodec.Decode: the loop appending one entry per record. */
  method DecodeWifis(payload: seq<byte>) returns (r: Result<AdditionalInfo>)
    ensures r == WifiInfo(payload)
  {
    if |payload| == 0 {
      return Err(OutOfRange);
    }
    var wifisNum := payload[0] as int;
    var data := payload[1..];
    var wifis: seq<Wifi> := [];
    for i := 0 to wifisNum
      invariant 7 * i <= |data|
      invariant wifis == WifiList(data, i)
    {
      if i * 7 + 6 >= |data| {
        return Err(OutOfRange);
      }
      wifis := wifis + [Wifi(data[i * 7..i * 7 + 6], SignalStrength(data[i * 7 + 6]))];
    }
    r := Ok(Wifis(wifis, payload));
  }

  /** The payload of a WiFi record: the count, then every entry's MAC and the byte whose
      negation is its signal strength. */
  function WifiPayload(wifis: seq<Wifi>): (p: seq<byte>)
    requires forall k :: 0 <= k < |wifis| ==> |wifis[k].macAddress| == 6
    requires |wifis| < 256
    ensures |p| == 1 + 7 * |wifis|
  {
    [|wifis| as bv8] + WifiEntries(wifis)
  }

  function WifiEntries(wifis: seq<Wifi>): (e: seq<byte>)
    requires forall k :: 0 <= k < |wifis| ==> |wifis[k].macAddress| == 6
    ensures |e| == 7 * |wifis|
  {
    if wifis == [] then []
    else
      var w := wifis[|wifis| - 1];
      WifiEntries(wifis[..|wifis| - 1]) + EntryBytes(w)
  }

  lemma {:induction false} WifiListOfEntries(wifis: seq<Wifi>, tail: seq<byte>)
    requires forall k :: 0 <= k < |wifis| ==> |wifis[k].macAddress| == 6
    ensures WifiList(WifiEntries(wifis) + tail, |wifis|) == wifis
  {
    var s := WifiEntries(wifis) + tail;
    WifiListEntries(s, |wifis|);
    forall k | 0 <= k < |wifis|
      ensures WifiList(s, |wifis|)[k] == wifis[k]
    {
      EntriesAt(wifis, tail, k);
    }
  }

  lemma {:induction false} EntriesAt(wifis: seq<Wifi>, tail: seq<byte>, k: nat)
    requires forall j :: 0 <= j < |wifis| ==> |wifis[j].macAddress| == 6
    requires k < |wifis|
    ensures 7 * k + 7 <= |WifiEntries(wifis) + tail|
    ensures WifiAt(WifiEntries(wifis) + tail, k) == wifis[k]
  {
    var n := |wifis| - 1;
    var front := WifiEntries(wifis[..n]);
    assert WifiEntries(wifis) + tail == front + (EntryBytes(wifis[n]) + tail);
    if k == n {
      EntryAt(front, wifis[n], tail);
    } else {
      EntriesAt(wifis[..n], EntryBytes(wifis[n]) + tail, k);
    }
  }

  /** The bytes WifiEntries writes for one entry. */
  function EntryBytes(w: Wifi): seq<byte>
  {
    w.macAddress + [0 - w.signalStrength]
  }

  lemma EntryAt(front: seq<byte>, w: Wifi, tail: seq<byte>)
    requires |front| % 7 == 0 && |w.macAddress| == 6
    ensures WifiAt(front + (EntryBytes(w) + tail), |front| / 7) == w
  {
    var s := front + (EntryBytes(w) + tail);
    var k := |front| / 7;
    assert 7 * k == |front|;
    assert s[7 * k..7 * k + 6] == w.macAddress;
    assert s[7 * k + 6] == 0 - w.signalStrength;
  }

  /** Every WiFi list with 6-byte MACs and fewer than 256 entries (a count that fits in a
      byte) decodes back from its payload. */
  lemma WifiRoundTrip(wifis: seq<Wifi>, count: byte)
    requires forall k :: 0 <= k < |wifis| ==> |wifis[k].macAddress| == 6
    requires |wifis| == count as int
    ensures WifiInfo(WifiPayload(wifis)) == Ok(Wifis(wifis, WifiPayload(wifis)))
  {
    var p := WifiPayload(wifis);
    ByteRoundTrip(count);
    assert p[0] == count;
    assert p[1..] == WifiEntries(wifis) + [];
    WifiListOfEntries(wifis, []);
  }

  /** Length() is the length of the payload a list was decoded from, as long as that fits
      in a byte. */
  lemma WifiLength(wifis: seq<Wifi>, data: seq<byte>, len: byte)
    requires len as int == 7 * |wifis| + 1
    ensures Wifis(wifis, data).Length() == len
  {
    ByteRoundTrip(len);
  }

  /** From 37 entries on the uint8 conversion of Length() wraps around: 37 entries claim a
      length of 4. */
  lemma WifiLengthWraps(wifis: seq<Wifi>, data: seq<byte>)
    requires |wifis| == 37
    ensures Wifis(wifis, data).Length() == 4
  {
  }

  /** 0xC8 is a signal strength of 0x38 (56); 0 stays 0. */
  lemma SignalStrengthExamples()
    ensures SignalStrength(0xC8) == 0x38 && SignalStrength(0) == 0
  {
  }

  /** batteryCodec.Decode: percentage and extension are the first two bytes, the raw bytes
      are the whole payload; a payload under 2 bytes makes Go index past the end. */
  function BatteryInfo(payload: seq<byte>): (r: Result<AdditionalInfo>)
    ensures r.Ok? <==> |payload| >= 2
    ensures r.Err? ==> r.error == OutOfRange
  {
    if |payload| < 2 then Err(OutOfRange) else Ok(Battery(payload[0], payload[1], payload))
  }

  /** A decoded battery item: id 0x56, Length() 3 whatever the payload size, the payload as
      its info, percentage and extension from its first two bytes. */
  lemma BatteryInfoShape(payload: seq<byte>)
    requires |payload| >= 2
    ensures BatteryInfo(payload).value.Battery?
    ensures BatteryInfo(payload).value.Id() == BatteryInfoId && BatteryInfo(payload).value.Length() == 3
    ensures BatteryInfo(payload).value.Info() == payload
    ensures BatteryInfo(payload).value.percentage == payload[0]
    ensures BatteryInfo(payload).value.extension == payload[1]
  {
  }

  /** unknownInfoCodec.Decode on a whole record: id, length and the rest, kept verbatim; a
      record under 2 bytes makes Go index past the end. */
  function UnknownInfoOf(record: seq<byte>): (r: Result<AdditionalInfo>)
    ensures r.Ok? <==> |record| >= 2
    ensures r.Err? ==> r.error == OutOfRange
  {
    if |record| < 2 then Err(OutOfRange) else Ok(UnknownInfo(record[0], record[1], record[2..]))
  }

  /** Id(), Length() and Info() of a decoded unknown item put back together give the record. */
  lemma UnknownInfoShape(record: seq<byte>)
    requires |record| >= 2
    ensures UnknownInfoOf(record).value.UnknownInfo?
    ensures [UnknownInfoOf(record).value.Id(), UnknownInfoOf(record).value.Length()]
      + UnknownInfoOf(record).value.Info() == record
  {
    assert [record[0], record[1]] + record[2..] == record;
  }

  /** A record id · length · payload, decoded by the sub-decoder its id selects: the payload
      goes to the WiFi or battery decoder, the whole record to the unknown decoder.  The walk
      hands over only records of at least two bytes; anything shorter is out of range. */
  function RecordInfo(record: seq<byte>): Result<AdditionalInfo>
  {
    if |record| < 2 then Err(OutOfRange)
    else if record[0] == WifiInfoId then WifiInfo(record[2..])
    else if record[0] == BatteryInfoId then BatteryInfo(record[2..])
    else UnknownInfoOf(record)
  }

  /** Whatever the id, a decoded record keeps the record's id and payload; the id alone picks
      the kind of item, and only the WiFi and battery decoders can fail. */
  lemma RecordInfoShape(record: seq<byte>)
    requires |record| >= 2
    ensures RecordInfo(record).Ok? ==>
      RecordInfo(record).value.Id() == record[0] && RecordInfo(record).value.Info() == record[2..]
    ensures RecordInfo(record).Ok? && RecordInfo(record).value.UnknownInfo? ==>
      RecordInfo(record).value.Length() == record[1]
    ensures RecordInfo(record).Ok? ==> (RecordInfo(record).value.Wifis? <==> record[0] == WifiInfoId)
    ensures RecordInfo(record).Ok? ==> (RecordInfo(record).value.Battery? <==> record[0] == BatteryInfoId)
    ensures RecordInfo(record).Err? ==>
      (record[0] == WifiInfoId || record[0] == BatteryInfoId) && RecordInfo(record).error == OutOfRange
  {
    assert [record[0], record[1]] + record[2..] == record;
  }

  /** The decoder the walk applies to each record. */
  type RecordDecoder = seq<byte> -> Result<AdditionalInfo>

  /** locationAdditionalInfoCodec.Decode from cursor i, with the record decoder as a
      parameter: one item per record, in stream order.  The walk ends when the cursor reaches
      the end of the data, and fails when a record's header or payload runs past the end, or
      the decoder fails. */
  function WalkFrom(data: seq<byte>, i: nat, decode: RecordDecoder): Result<seq<AdditionalInfo>>
    requires i <= |data|
    decreases |data| - i
  {
    if i == |data| then Ok([])
    else if i + 1 >= |data| then Err(OutOfRange)
    else
      var end := i + 2 + data[i + 1] as int;
      if end > |data| then Err(OutOfRange)
      else Combine(decode(data[i..end]), WalkFrom(data, end, decode))
  }

  /** locationAdditionalInfoCodec.Decode: the walk from the start of the data, each record
      decoded by its id. */
  function AdditionalInfos(data: seq<byte>): Result<seq<AdditionalInfo>>
  {
    WalkFrom(data, 0, RecordInfo)
  }

  /** A decoded record in front of the walk over the records after it; the record's error
      comes first, as the walk returns as soon as a sub-decoder fails. */
  function Combine(item: Result<AdditionalInfo>, rest: Result<seq<AdditionalInfo>>): Result<seq<AdditionalInfo>>
  {
    match item
    case Err(e) => Err(e)
    case Ok(info) => Then([info], rest)
  }

  /** The items found so far, in front of the outcome of the rest of the walk. */
  function Then(infos: seq<AdditionalInfo>, r: Result<seq<AdditionalInfo>>): Result<seq<AdditionalInfo>>
  {
    if r.Ok? then Ok(infos + r.value) else r
  }

  /** One step of the walk at cursor i, over the record that ends at end. */
  lemma WalkStep(data: seq<byte>, i: nat, end: nat, decode: RecordDecoder)
    requires i + 1 < |data| && end == i + 2 + data[i + 1] as int && end <= |data|
    ensures WalkFrom(data, i, decode) == Combine(decode(data[i..end]), WalkFrom(data, end, decode))
  {
  }

  /** A walk that cannot read a record header, or whose record runs past the end, fails. */
  lemma WalkShort(data: seq<byte>, i: nat, decode: RecordDecoder)
    requires i < |data|
    requires i + 1 >= |data| || i + 2 + data[i + 1] as int > |data|
    ensures WalkFrom(data, i, decode) == Err(OutOfRange)
  {
  }

  /** locationAdditionalInfoCodec.Decode: the cursor loop advancing 2 + length per record. */
  method DecodeAdditionalInfo(data: seq<byte>) returns (r: Result<seq<AdditionalInfo>>)
    ensures r == AdditionalInfos(data)
  {
    var infos: seq<AdditionalInfo> := [];
    var i := 0;
    ThenNothing(AdditionalInfos(data));
    while i < |data|
      invariant 0 <= i <= |data|
      invariant AdditionalInfos(data) == Then(infos, WalkFrom(data, i, RecordInfo))
      decreases |data| - i
    {
      if i + 1 >= |data| {
        WalkShort(data, i, RecordInfo);
        return Err(OutOfRange);
      }
      var singleInfoLength := data[i + 1] as int;
      if i + 2 + singleInfoLength > |data| {
        WalkShort(data, i, RecordInfo);
        return Err(OutOfRange);
      }
      var record := data[i..i + 2 + singleInfoLength];
      var item := DecodeRecord(record);
      WalkAdvance(data, i, RecordInfo, AdditionalInfos(data), infos, item);
      if item.Err? {
        return Err(item.error);
      }
      infos := infos + [item.value];
      i := i + 2 + singleInfoLength;
    }
    assert infos + [] == infos;
    r := Ok(infos);
  }

  /** The switch on the record id inside the walk: WiFi and battery decode the payload, any
      other id decodes the whole record. */
  method DecodeRecord(record: seq<byte>) returns (r: Result<AdditionalInfo>)
    requires |record| >= 2 && |record| == 2 + record[1] as int
    ensures r == RecordInfo(record)
  {
    var singleInfoLength := record[1] as int;
    if record[0] == WifiInfoId {
      r := DecodeWifis(record[2..2 + singleInfoLength]);
    } else if record[0] == BatteryInfoId {
      r := BatteryInfo(record[2..2 + singleInfoLength]);
    } else {
      r := UnknownInfoOf(record[0..1 + singleInfoLength + 1]);
    }
    assert record[2..2 + singleInfoLength] == record[2..];
    assert record[0..1 + singleInfoLength + 1] == record;
  }

  /** The walk's invariant carried past one record at cursor i: a failing record ends the
      walk with its error, a decoded one joins the items found so far. */
  lemma WalkAdvance(data: seq<byte>, i: nat, decode: RecordDecoder, whole: Result<seq<AdditionalInfo>>,
                    infos: seq<AdditionalInfo>, item: Result<AdditionalInfo>)
    requires i + 1 < |data| && i + 2 + data[i + 1] as int <= |data|
    requires item == decode(data[i..i + 2 + data[i + 1] as int])
    requires whole == Then(infos, WalkFrom(data, i, decode))
    ensures item.Err? ==> whole == Err(item.error)
    ensures item.Ok? ==> whole == Then(infos + [item.value], WalkFrom(data, i + 2 + data[i + 1] as int, decode))
  {
    WalkStep(data, i, i + 2 + data[i + 1] as int, decode);
    if item.Ok? {
      ThenStep(infos, item.value, WalkFrom(data, i + 2 + data[i + 1] as int, decode));
    }
  }

  lemma ThenNothing(r: Result<seq<AdditionalInfo>>)
    ensures Then([], r) == r
  {
    if r.Ok? {
      assert [] + r.value == r.value;
    }
  }

  lemma ThenStep(infos: seq<AdditionalInfo>, item: AdditionalInfo, rest: Result<seq<AdditionalInfo>>)
    ensures Then(infos, Then([item], rest)) == Then(infos + [item], rest)
  {
    if rest.Ok? {
      assert infos + ([item] + rest.value) == infos + [item] + rest.value;
    }
  }

  /** The bytes of a list of items, each written as id · length of its info as a byte
      (truncated, as Go's byte conversion does) · info. */
  function Records(infos: seq<AdditionalInfo>): seq<byte>
  {
    if infos == [] then []
    else [infos[0].Id(), LengthOf(infos[0].Info())] + infos[0].Info() + Records(infos[1..])
  }

  /** A length written in one byte, modulo 256. */
  function LengthOf(payload: seq<byte>): byte
  {
    (|payload| % 256) as bv8
  }

  /** A decoder whose items keep the id and the payload of the record they come from. */
  ghost predicate KeepsRecords(decode: RecordDecoder)
  {
    forall r: seq<byte> :: |r| >= 2 && decode(r).Ok? ==> decode(r).value.Id() == r[0] && decode(r).value.Info() == r[2..]
  }

  lemma KeptRecord(decode: RecordDecoder, r: seq<byte>)
    requires KeepsRecords(decode) && |r| >= 2 && decode(r).Ok?
    ensures decode(r).value.Id() == r[0] && decode(r).value.Info() == r[2..]
  {
  }

  lemma RecordInfoKeepsRecords()
    ensures KeepsRecords(RecordInfo)
  {
    forall r: seq<byte> | |r| >= 2 && RecordInfo(r).Ok?
      ensures RecordInfo(r).value.Id() == r[0] && RecordInfo(r).value.Info() == r[2..]
    {
      RecordInfoShape(r);
    }
  }

  /** When the walk succeeds its items tile the data exactly: writing every item back as
      id · length · info gives the data, in the same order, and no info is longer than a
      length byte can say. */
  lemma AdditionalInfosTile(data: seq<byte>)
    requires AdditionalInfos(data).Ok?
    ensures forall k :: 0 <= k < |AdditionalInfos(data).value| ==> |AdditionalInfos(data).value[k].Info()| < 256
    ensures Records(AdditionalInfos(data).value) == data
  {
    RecordInfoKeepsRecords();
    WalkTile(data, 0, RecordInfo);
    WalkLengths(data, 0, RecordInfo);
  }

  lemma {:induction false} WalkTile(data: seq<byte>, i: nat, decode: RecordDecoder)
    requires KeepsRecords(decode)
    requires i <= |data| && WalkFrom(data, i, decode).Ok?
    ensures Records(WalkFrom(data, i, decode).value) == data[i..]
    decreases |data| - i
  {
    if i < |data| {
      var end, item := TileStep(data, i, decode);
      WalkTile(data, end, decode);
      RecordsCons(item, WalkFrom(data, end, decode).value);
    }
  }

  lemma {:induction false} WalkLengths(data: seq<byte>, i: nat, decode: RecordDecoder)
    requires KeepsRecords(decode)
    requires i <= |data| && WalkFrom(data, i, decode).Ok?
    ensures forall k :: 0 <= k < |WalkFrom(data, i, decode).value| ==> |WalkFrom(data, i, decode).value[k].Info()| < 256
    decreases |data| - i
  {
    if i < |data| {
      var end, item := TileStep(data, i, decode);
      WalkLengths(data, end, decode);
      LengthsCons(item, WalkFrom(data, end, decode).value);
    }
  }

  /** One record of a successful walk: the item it gives and the bytes it occupies. */
  lemma TileStep(data: seq<byte>, i: nat, decode: RecordDecoder) returns (end: nat, item: AdditionalInfo)
    requires KeepsRecords(decode)
    requires i < |data| && WalkFrom(data, i, decode).Ok?
    ensures i < end <= |data| && WalkFrom(data, end, decode).Ok?
    ensures WalkFrom(data, i, decode).value == [item] + WalkFrom(data, end, decode).value
    ensures |item.Info()| < 256
    ensures data[i..] == [item.Id(), LengthOf(item.Info())] + item.Info() + data[end..]
  {
    end := i + 2 + data[i + 1] as int;
    WalkStep(data, i, end, decode);
    var record := data[i..end];
    item := decode(record).value;
    RecordPieces(data, i, end);
    KeptRecord(decode, record);
    RecordHead(data, i, end, item);
  }

  lemma LengthsCons(item: AdditionalInfo, rest: seq<AdditionalInfo>)
    requires |item.Info()| < 256
    requires forall k :: 0 <= k < |rest| ==> |rest[k].Info()| < 256
    ensures forall k :: 0 <= k < |[item] + rest| ==> |([item] + rest)[k].Info()| < 256
  {
  }

  /** A record cut out of the data at cursor i: its id, its length byte, its payload. */
  lemma RecordPieces(data: seq<byte>, i: nat, end: nat)
    requires i + 1 < |data| && end == i + 2 + data[i + 1] as int && end <= |data|
    ensures |data[i..end]| >= 2
    ensures data[i..end][0] == data[i] && data[i..end][1] == data[i + 1]
    ensures data[i..end][2..] == data[i + 2..end] && |data[i + 2..end]| == data[i + 1] as int
    ensures data[i..] == [data[i], data[i + 1]] + data[i + 2..end] + data[end..]
  {
  }

  /** The record at cursor i, written back from an item with its id and payload. */
  lemma RecordHead(data: seq<byte>, i: nat, end: nat, item: AdditionalInfo)
    requires i + 1 < |data| && end == i + 2 + data[i + 1] as int && end <= |data|
    requires data[i..] == [data[i], data[i + 1]] + data[i + 2..end] + data[end..]
    requires item.Id() == data[i] && item.Info() == data[i + 2..end]
    ensures |item.Info()| < 256
    ensures data[i..] == [item.Id(), LengthOf(item.Info())] + item.Info() + data[end..]
  {
    LengthByte(item.Info(), data[i + 1]);
  }

  /** A payload whose length is given by a length byte has that byte as its length. */
  lemma LengthByte(payload: seq<byte>, len: byte)
    requires |payload| == len as int
    ensures |payload| < 256 && LengthOf(payload) == len
  {
    ByteRoundTrip(len);
  }

  lemma RecordsCons(item: AdditionalInfo, rest: seq<AdditionalInfo>)
    ensures Records([item] + rest) == [item.Id(), LengthOf(item.Info())] + item.Info() + Records(rest)
  {
    assert ([item] + rest)[1..] == rest;
  }

  /** Unknown items whose length field is the length of their body. */
  predicate VerbatimUnknowns(infos: seq<AdditionalInfo>)
  {
    forall k :: 0 <= k < |infos| ==>
      (infos[k].UnknownInfo? && infos[k].id != WifiInfoId && infos[k].id != BatteryInfoId
       && |infos[k].body| == infos[k].length as int)
  }

  /** A decoder that keeps every record of an id other than 0x54 and 0x56 verbatim. */
  ghost predicate KeepsUnknowns(decode: RecordDecoder)
  {
    forall r: seq<byte> :: |r| >= 2 && r[0] != WifiInfoId && r[0] != BatteryInfoId ==>
      decode(r) == Ok(UnknownInfo(r[0], r[1], r[2..]))
  }

  lemma RecordInfoKeepsUnknowns()
    ensures KeepsUnknowns(RecordInfo)
  {
  }

  /** Records with ids other than 0x54 and 0x56 are kept verbatim: the walk over such records
      gives back exactly the unknown items they were written from. */
  lemma UnknownRecordsRoundTrip(infos: seq<AdditionalInfo>)
    requires VerbatimUnknowns(infos)
    ensures AdditionalInfos(Records(infos)) == Ok(infos)
  {
    assert [] + Records(infos) == Records(infos);
    RecordInfoKeepsUnknowns();
    UnknownRecordsFrom([], infos, RecordInfo);
  }

  lemma {:induction false} UnknownRecordsFrom(prefix: seq<byte>, infos: seq<AdditionalInfo>, decode: RecordDecoder)
    requires KeepsUnknowns(decode)
    requires VerbatimUnknowns(infos)
    ensures WalkFrom(prefix + Records(infos), |prefix|, decode) == Ok(infos)
    decreases |infos|
  {
    if infos != [] {
      var it, rest := infos[0], infos[1..];
      var record := UnknownFront(infos);
      var data, front := prefix + Records(infos), prefix + record;
      Associate(prefix, record, Records(rest));
      assert data == front + Records(rest);
      UnknownStep(data, prefix, front, it, Records(rest), decode);
      UnknownRecordsFrom(front, rest, decode);
      ThenOne(WalkFrom(data, |prefix|, decode), WalkFrom(data, |front|, decode), infos);
    } else {
      assert prefix + Records(infos) == prefix;
    }
  }

  /** A verbatim unknown record met by the walk's cursor is decoded to the item it was
      written from, and the walk then moves past it. */
  lemma UnknownStep(data: seq<byte>, prefix: seq<byte>, front: seq<byte>, it: AdditionalInfo, tail: seq<byte>,
                    decode: RecordDecoder)
    requires KeepsUnknowns(decode)
    requires it.UnknownInfo? && it.id != WifiInfoId && it.id != BatteryInfoId && |it.body| == it.length as int
    requires front == prefix + ([it.id, it.length] + it.body) && data == front + tail
    ensures |front| <= |data|
    ensures WalkFrom(data, |prefix|, decode) == Then([it], WalkFrom(data, |front|, decode))
  {
    KeptUnknownItem(decode, it);
    WalkRecord(data, prefix, [it.id, it.length] + it.body, tail, decode);
  }

  /** The walk at a record that gives the first item, in front of a walk that gives the
      rest, gives them all. */
  lemma ThenOne(w: Result<seq<AdditionalInfo>>, rest: Result<seq<AdditionalInfo>>, infos: seq<AdditionalInfo>)
    requires infos != [] && w == Then([infos[0]], rest) && rest == Ok(infos[1..])
    ensures w == Ok(infos)
  {
    assert infos == [infos[0]] + infos[1..];
  }

  lemma Associate(a: seq<byte>, b: seq<byte>, c: seq<byte>)
    ensures a + (b + c) == (a + b) + c
  {
  }

  /** The first unknown item of a verbatim list, written back, and the items after it. */
  lemma UnknownFront(infos: seq<AdditionalInfo>) returns (record: seq<byte>)
    requires VerbatimUnknowns(infos) && infos != []
    ensures VerbatimUnknowns(infos[1..])
    ensures infos[0].UnknownInfo? && infos[0].id != WifiInfoId && infos[0].id != BatteryInfoId
    ensures |infos[0].body| == infos[0].length as int
    ensures record == [infos[0].id, infos[0].length] + infos[0].body
    ensures Records(infos) == record + Records(infos[1..])
  {
    assert VerbatimUnknowns(infos[1..]) by {
      forall k | 0 <= k < |infos[1..]| ensures infos[1..][k] == infos[k + 1] { }
    }
    LengthByte(infos[0].body, infos[0].length);
    record := [infos[0].id, infos[0].length] + infos[0].body;
  }

  /** A record whose length byte matches its payload, met by the walk's cursor right after
      the bytes in front of it, is decoded whole before the walk moves past it. */
  lemma WalkRecord(data: seq<byte>, prefix: seq<byte>, record: seq<byte>, tail: seq<byte>, decode: RecordDecoder)
    requires |record| >= 2 && |record| == 2 + record[1] as int
    requires data == prefix + record + tail
    ensures |prefix| + |record| <= |data|
    ensures WalkFrom(data, |prefix|, decode) == Combine(decode(record), WalkFrom(data, |prefix| + |record|, decode))
  {
    RecordAt(data, prefix, record, tail);
    WalkStep(data, |prefix|, |prefix| + |record|, decode);
  }

  lemma RecordAt(data: seq<byte>, prefix: seq<byte>, record: seq<byte>, tail: seq<byte>)
    requires |record| >= 2 && |record| == 2 + record[1] as int
    requires data == prefix + record + tail
    ensures |prefix| + 1 < |data| && data[|prefix| + 1] == record[1]
    ensures |prefix| + |record| <= |data|
    ensures data[|prefix|..|prefix| + |record|] == record
  {
  }

  /** A verbatim unknown item, written back, decodes to itself. */
  lemma KeptUnknownItem(decode: RecordDecoder, it: AdditionalInfo)
    requires KeepsUnknowns(decode)
    requires it.UnknownInfo? && it.id != WifiInfoId && it.id != BatteryInfoId && |it.body| == it.length as int
    ensures |[it.id, it.length] + it.body| == 2 + it.length as int
    ensures decode([it.id, it.length] + it.body) == Ok(it)
  {
    var r := [it.id, it.length] + it.body;
    assert r[0] == it.id && r[1] == it.length && r[2..] == it.body;
  }

  /** The walk of a WiFi record of length 8 holding one entry, followed by an unknown record
      with an empty payload. */
  lemma TlvExample()
    ensures AdditionalInfos([0x54, 0x08, 0x01, 0xAA, 0xBB, 0xCC, 0xDD, 0xEE, 0xFF, 0xC8, 0x99, 0x00])
         == Ok([Wifis([Wifi([0xAA, 0xBB, 0xCC, 0xDD, 0xEE, 0xFF], 0x38)],
                      [0x01, 0xAA, 0xBB, 0xCC, 0xDD, 0xEE, 0xFF, 0xC8]),
                UnknownInfo(0x99, 0x00, [])])
  {
    var data: seq<byte> := [0x54, 0x08, 0x01, 0xAA, 0xBB, 0xCC, 0xDD, 0xEE, 0xFF, 0xC8, 0x99, 0x00];
    var record: seq<byte> := [0x54, 0x08, 0x01, 0xAA, 0xBB, 0xCC, 0xDD, 0xEE, 0xFF, 0xC8];
    var tail: seq<byte> := [0x99, 0x00];
    assert 2 + data[1] as int == 10 && 10 + 2 + data[11] as int == 12;
    assert data[0..10] == record && data[10..12] == tail;
    WalkStep(data, 0, 10, RecordInfo);
    WalkStep(data, 10, 12, RecordInfo);
    TlvWifiRecord(record);
    var w := Wifis([Wifi([0xAA, 0xBB, 0xCC, 0xDD, 0xEE, 0xFF], 0x38)], record[2..]);
    var u := UnknownInfo(0x99, 0x00, []);
    assert tail[2..] == [];
    assert RecordInfo(tail) == Ok(u);
    assert WalkFrom(data, 12, RecordInfo) == Ok([]);
    assert [u] + [] == [u];
    assert WalkFrom(data, 10, RecordInfo) == Ok([u]);
    assert [w] + [u] == [w, u];
  }

  lemma TlvWifiRecord(record: seq<byte>)
    requires record == [0x54, 0x08, 0x01, 0xAA, 0xBB, 0xCC, 0xDD, 0xEE, 0xFF, 0xC8]
    ensures RecordInfo(record) == Ok(Wifis([Wifi([0xAA, 0xBB, 0xCC, 0xDD, 0xEE, 0xFF], 0x38)],
                                          [0x01, 0xAA, 0xBB, 0xCC, 0xDD, 0xEE, 0xFF, 0xC8]))
  {
    var payload := record[2..];
    assert payload == [0x01, 0xAA, 0xBB, 0xCC, 0xDD, 0xEE, 0xFF, 0xC8];
    var entries := payload[1..];
    assert entries[0..6] == [0xAA, 0xBB, 0xCC, 0xDD, 0xEE, 0xFF];
    assert WifiList(entries, 1) == [WifiAt(entries, 0)];
  }

  /** A trailing lone id byte after well-formed records, and a record whose length runs past
      the end, are errors. */
  lemma TruncatedRecords(data: seq<byte>, id: byte)
    requires AdditionalInfos(data).Ok?
    ensures AdditionalInfos(data + [id]).Err?
    ensures forall len: byte, payload: seq<byte> :: |payload| < len as int ==>
      AdditionalInfos([id, len] + payload).Err?
  {
    TrailingByte(data, 0, id, RecordInfo);
    forall len: byte, payload: seq<byte> | |payload| < len as int
      ensures AdditionalInfos([id, len] + payload).Err?
    {
      WalkShort([id, len] + payload, 0, RecordInfo);
    }
  }

  lemma {:induction false} TrailingByte(data: seq<byte>, i: nat, id: byte, decode: RecordDecoder)
    requires i <= |data| && WalkFrom(data, i, decode).Ok?
    ensures WalkFrom(data + [id], i, decode).Err?
    decreases |data| - i
  {
    if i < |data| {
      var end := i + 2 + data[i + 1] as int;
      var s := data + [id];
      assert s[i + 1] == data[i + 1];
      assert s[i..end] == data[i..end];
      WalkStep(data, i, end, decode);
      WalkStep(s, i, end, decode);
      TrailingByte(data, end, id, decode);
    }
  }
}
