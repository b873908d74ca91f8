/** codec/response/codec.go and the older codec/response_codec.go: the general response
    bodies (terminal response 0x0001, platform response 0x8001).  Both directions exist in
    the source, but only encoding does any work: every Decode returns a nil body. */
module ResponseCodec {
  import opened Bytes
  import opened Protocol

  /** serial number (2, big-endian) · message id (2, big-endian) · result (1) */
  function ResponseBytes(serialNum: bv16, id: bv16, result: byte): (r: seq<byte>)
    ensures |r| == 5
    ensures ReadBe16(r, 0) == serialNum && ReadBe16(r, 2) == id && r[4] == result
  {
    ReadBe16Be16([], serialNum, Be16(id) + [result]);
    assert Be16(serialNum) + Be16(id) + [result] == [] + Be16(serialNum) + (Be16(id) + [result]);
    ReadBe16Be16(Be16(serialNum), id, [result]);
    Be16(serialNum) + Be16(id) + [result]
  }

  /** clientResponseCodec.Encode: a terminal response body, or ErrBodyNotClientResponse. */
  function ClientResponseEncoding(b: Body): (r: Result<seq<byte>>)
    ensures r.Ok? <==> b.ClientResponse?
    ensures r.Err? ==> r.error == BodyNotClientResponse
    ensures r.Ok? ==> r.value == ResponseBytes(b.serialNum, b.id, b.result)
  {
    match b
    case ClientResponse(serialNum, id, result) => Ok(ResponseBytes(serialNum, id, result))
    case _ => Err(BodyNotClientResponse)
  }

  /** serverResponseCodec.Encode: a platform response body, or ErrBodyNotServerResponse. */
  function ServerResponseEncoding(b: Body): (r: Result<seq<byte>>)
    ensures r.Ok? <==> b.ServerResponse?
    ensures r.Err? ==> r.error == BodyNotServerResponse
    ensures r.Ok? ==> r.value == ResponseBytes(b.serialNum, b.id, b.result)
  {
    match b
    case ServerResponse(serialNum, id, result) => Ok(ResponseBytes(serialNum, id, result))
    case _ => Err(BodyNotServerResponse)
  }

  /** responseCodec.Encode of the older generation: the same layout for a platform response,
      with ErrBodyNotResponse for anything else. */
  function LegacyResponseEncoding(b: Body): (r: Result<seq<byte>>)
    ensures r.Ok? <==> b.ServerResponse?
    ensures r.Err? ==> r.error == BodyNotResponse
    ensures r.Ok? ==> r.value == ResponseBytes(b.serialNum, b.id, b.result)
  {
    match b
    case ServerResponse(serialNum, id, result) => Ok(ResponseBytes(serialNum, id, result))
    case _ => Err(BodyNotResponse)
  }

  /** The buffer writes shared by the three Encode methods. */
  method WriteResponse(serialNum: bv16, id: bv16, result: byte) returns (res: seq<byte>)
    ensures res == ResponseBytes(serialNum, id, result)
  {
    res := [];
    res := res + Be16(serialNum);
    res := res + Be16(id);
    res := res + [result];
  }

  method EncodeClientResponse(b: Body) returns (r: Result<seq<byte>>)
    ensures r == ClientResponseEncoding(b)
  {
    if !b.ClientResponse? {
      return Err(BodyNotClientResponse);
    }
    var res := WriteResponse(b.serialNum, b.id, b.result);
    r := Ok(res);
  }

  method EncodeServerResponse(b: Body) returns (r: Result<seq<byte>>)
    ensures r == ServerResponseEncoding(b)
  {
    if !b.ServerResponse? {
      return Err(BodyNotServerResponse);
    }
    var res := WriteResponse(b.serialNum, b.id, b.result);
    r := Ok(res);
  }

  method EncodeLegacyResponse(b: Body) returns (r: Result<seq<byte>>)
    ensures r == LegacyResponseEncoding(b)
  {
    if !b.ServerResponse? {
      return Err(BodyNotResponse);
    }
    var res := WriteResponse(b.serialNum, b.id, b.result);
    r := Ok(res);
  }

  /** The Decode of every response codec: no error and a nil body, whatever the data. */
  function DecodeResponse(data: seq<byte>): Result<Body>
  {
    Ok(NoBody)
  }

  /** The platform and the older response encoders agree wherever either succeeds. */
  lemma ServerAndLegacyAgree(b: Body)
    ensures ServerResponseEncoding(b).Ok? <==> LegacyResponseEncoding(b).Ok?
    ensures ServerResponseEncoding(b).Ok? ==> ServerResponseEncoding(b) == LegacyResponseEncoding(b)
  {
  }

  /** Terminal and platform responses of the same fields encode to the same bytes. */
  lemma ClientAndServerLayoutsAgree(serialNum: bv16, id: bv16, result: byte)
    ensures ClientResponseEncoding(ClientResponse(serialNum, id, result))
         == ServerResponseEncoding(ServerResponse(serialNum, id, result))
  {
  }

  /** Distinct responses encode to distinct bytes: the encoding loses nothing. */
  lemma ResponseBytesInjective(s1: bv16, i1: bv16, r1: byte, s2: bv16, i2: bv16, r2: byte)
    requires ResponseBytes(s1, i1, r1) == ResponseBytes(s2, i2, r2)
    ensures s1 == s2 && i1 == i2 && r1 == r2
  {
  }

  /** Decoding what a response encoder produced does not give the response back: its Decode
      returns the nil body and no error, for these bytes and for any others. */
  lemma ResponseDecodeDiscards(data: seq<byte>, serialNum: bv16, id: bv16, result: byte)
    ensures DecodeResponse(data) == Ok(NoBody)
    ensures var encoded := ServerResponseEncoding(ServerResponse(serialNum, id, result));
      encoded.Ok? && |encoded.value| == 5 && DecodeResponse(encoded.value) == Ok(NoBody)
    ensures DecodeResponse(ServerResponseEncoding(ServerResponse(serialNum, id, result)).value)
         != Ok(ServerResponse(serialNum, id, result))
  {
  }
}
