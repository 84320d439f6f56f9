/** Feature 0x0001 (FeatureSet): the number of features and the entry at
    each index. */
module FeatureSetFeature {
  import opened Common
  import opened ByteUtils
  import opened Reports
  import opened FeatureCatalog

  const FuncGetCount: int := 0x00
  const FuncGetFeatureId: int := 0x01

  /** GetCount: the single byte response[0]. */
  function GetCountResult(response: Report): (r: Result<nat>)
    ensures r.Ok? ==> r.value < 256
    ensures !response.isSuccess ==> r == Err(FeatureFailure(response.error))
    ensures Framed(response) && !response.DjReport? && response.isSuccess ==> r == Ok(response.raw[4] as nat)
  {
    if response.isSuccess then
      var count :- response.At(0);
      Ok(count as nat)
    else Err(FeatureFailure(response.error))
  }

  /** GetFeatureId's parameter: the index cut to a byte. */
  function GetFeatureIdParams(featureIndex: int): (p: seq<byte>)
    ensures |p| == 1 && p[0] as int == featureIndex % 256
  {
    [Low8(featureIndex)]
  }

  /** GetFeatureId: index = the requested index, code = big-endian
      ReadUInt16(0), type = response[2], version = response[3]. */
  function GetFeatureIdResult(featureIndex: int, response: Report): (r: Result<FeatureInfo>)
    ensures !response.isSuccess ==> r == Err(FeatureFailure(response.error))
    ensures r.Ok? ==> r.value.index == featureIndex
  {
    if response.isSuccess then
      var code :- response.ReadUInt16(0);
      // the size check passed for offsets 0..2, so payload byte 2 exists
      var featureType := response.raw[response.HeaderSize() + 2];
      var version :- response.At(3);
      Ok(FeatureInfo(featureIndex, code, featureType, version))
    else Err(FeatureFailure(response.error))
  }

  lemma GetFeatureIdDecodes(featureIndex: int, response: Report)
    requires response.FeatureReport? && |response.raw| == 20 && response.isSuccess
    ensures GetFeatureIdResult(featureIndex, response)
            == Ok(FeatureInfo(featureIndex, response.raw[4] as int * 256 + response.raw[5] as int,
                              response.raw[6], response.raw[7]))
  {
    BigEndianPair(response.raw[4], response.raw[5]);
    assert response.raw[4..6] == [response.raw[4], response.raw[5]];
  }
}
