/** Feature 0x0000 (Root), always bound to feature index 0: it resolves a
    feature code to its index and reports the protocol version. */
module RootFeature {
  import opened Common
  import opened ByteUtils
  import opened Reports
  import opened FeatureCatalog
  import opened AbstractFeature
  import opened ProtocolVersions

  const RootIndex: int := 0x00
  const FuncGetFeature: int := 0x00
  const FuncGetProtocolVersion: int := 0x01

  /** The Root object binds to the explicit index 0, whatever the catalog holds. */
  lemma RootBoundAtZero(features: seq<FeatureInfo>)
    ensures BindFeature(features, RootCode, Some(RootIndex)).Ok?
    ensures BindFeature(features, RootCode, Some(RootIndex)).value.featureIndex == 0x00
  {
  }

  /** GetFeature's parameters: `Pack((ushort)feature)`, written little-endian. */
  function GetFeatureParams(code: uint16): (p: seq<byte>)
    ensures Ok(p) == PackOf([AUInt16(code)])
    ensures p == [Low8(code), Low8(code / 256)]
  {
    assert [AUInt16(code)][..0] == [];
    assert PackOf([AUInt16(code)]) == Ok([] + LittleEndian(code, 2));
    assert [] + LittleEndian(code, 2) == LittleEndian(code, 2);
    LittleEndianPair(code);
    LittleEndian(code, 2)
  }

  /** The library reads 16-bit fields big-endian, so reading GetFeature's own
      parameter bytes back yields the code with its bytes swapped. */
  lemma GetFeatureParamsByteOrder(code: uint16)
    ensures BigEndian(GetFeatureParams(code)) == (code % 256) * 256 + code / 256
    ensures GetFeatureParams(FeatureSetCode) == [0x01, 0x00]
  {
    BigEndianPair(Low8(code), Low8(code / 256));
    assert (code / 256) % 256 == code / 256;
    Low8Exact(1);
    Low8Exact(0);
  }

  /** GetFeature's decoding: index = response[0] + 1, the requested code,
      type = response[1], version = response[2]; a failed response raises
      the response's error. */
  function GetFeatureResult(code: uint16, response: Report): (r: Result<FeatureInfo>)
    ensures r.Ok? ==> r.value.code == code && r.value.index >= 1
  {
    if response.isSuccess then
      var index :- response.At(0);
      var featureType :- response.At(1);
      var version :- response.At(2);
      Ok(FeatureInfo(index as int + 1, code, featureType, version))
    else Err(FeatureFailure(response.error))
  }

  lemma GetFeatureDecodes(code: uint16, response: Report)
    requires Framed(response) && response.FeatureReport?
    ensures response.isSuccess ==>
              GetFeatureResult(code, response)
              == Ok(FeatureInfo(response.raw[4] as int + 1, code, response.raw[5], response.raw[6]))
    ensures response.isSuccess ==> GetFeatureResult(code, response).value.index >= 1
    ensures !response.isSuccess ==> GetFeatureResult(code, response) == Err(FeatureFailure(response.error))
  {
  }

  function ProtocolVersionParams(ping: byte): seq<byte> {
    [0x00, 0x00, ping]
  }

  /** GetProtocolVersion's decoding: a failed response whose third payload
      byte is not the ping raises Unknown ("wrong ping data"), otherwise the
      response's own error. */
  function ProtocolVersionResult(response: Report, ping: byte): Result<ProtocolVersion> {
    if response.isSuccess then
      var number :- response.At(0);
      var target :- response.At(1);
      Ok(ProtocolVersion(number, target))
    else
      var echoed :- response.At(2);
      if echoed != ping then Err(FeatureFailure(Unknown))
      else Err(FeatureFailure(response.error))
  }

  lemma ProtocolVersionDecodes(response: Report, ping: byte)
    requires Framed(response) && response.FeatureReport?
    ensures response.isSuccess ==>
              ProtocolVersionResult(response, ping) == Ok(ProtocolVersion(response.raw[4], response.raw[5]))
    ensures !response.isSuccess && response.raw[6] != ping ==>
              ProtocolVersionResult(response, ping) == Err(FeatureFailure(Unknown))
    ensures !response.isSuccess && response.raw[6] == ping ==>
              ProtocolVersionResult(response, ping) == Err(FeatureFailure(response.error))
  {
  }

  /** The timeout report has only six bytes, so the ping check's read of
      payload byte 2 (raw byte 6) is out of range: a timed-out
      GetProtocolVersion throws IndexOutOfRange, not a feature error. */
  lemma ProtocolVersionTimeout(request: seq<byte>, ping: byte)
    requires |request| >= 4
    ensures ProtocolVersionResult(TimeoutFeatureReport(request), ping) == Err(IndexOutOfRange)
  {
  }
}
