/** The HID++ 2.0 feature catalog: the ordered list of (index, code, type,
    version) entries discovered on a device, and the lookups over it. */
module FeatureCatalog {
  import opened Common
  import opened ByteUtils

  const RootCode: uint16 := 0x0000
  const FeatureSetCode: uint16 := 0x0001

  /** One catalog entry (the library's FeatureInfo struct). */
  datatype FeatureInfo = FeatureInfo(index: int, code: uint16, featureType: byte, version: byte)

  /** The all-zero FeatureInfo, the value `default(FeatureInfo)` of the struct. */
  const DefaultInfo: FeatureInfo := FeatureInfo(0, 0, 0x00, 0x00)

  /** The position of the first entry with `code`. */
  function FirstWith(features: seq<FeatureInfo>, code: uint16): (k: Option<nat>)
    ensures k.Some? ==> k.value < |features| && features[k.value].code == code
                        && forall j :: 0 <= j < k.value ==> features[j].code != code
    ensures k.None? ==> forall j :: 0 <= j < |features| ==> features[j].code != code
  {
    if features == [] then None
    else if features[0].code == code then Some(0)
    else
      match FirstWith(features[1..], code)
      case Some(k) => Some(k + 1)
      case None => None
  }

  /** GetFeatureIndex: the index of the first entry with the code, or -1. */
  function GetFeatureIndex(features: seq<FeatureInfo>, code: uint16): (i: int)
    ensures FirstWith(features, code).Some? ==> i == features[FirstWith(features, code).value].index
    ensures FirstWith(features, code).None? ==> i == -1
  {
    match FirstWith(features, code)
    case Some(k) => features[k].index
    case None => -1
  }

  /** GetFeatureInfo as written: `FirstOrDefault()` over a sequence of structs
      yields the all-zero struct, which the nullable return type then wraps as
      a present value, so the method never returns null. */
  function GetFeatureInfoAsWritten(features: seq<FeatureInfo>, code: uint16): (f: FeatureInfo)
    ensures FirstWith(features, code).None? ==> f == DefaultInfo
  {
    match FirstWith(features, code)
    case Some(k) => features[k]
    case None => DefaultInfo
  }

  /** GetFeatureInfo as intended: the first entry with the code, or nothing. */
  function GetFeatureInfo(features: seq<FeatureInfo>, code: uint16): (f: Option<FeatureInfo>)
    ensures f.Some? <==> IsSupported(features, code)
    ensures f.Some? ==> f.value.code == code && f.value in features
  {
    match FirstWith(features, code)
    case Some(k) => Some(features[k])
    case None => None
  }

  /** IsSupported: some entry has the code. */
  predicate IsSupported(features: seq<FeatureInfo>, code: uint16) {
    exists k :: 0 <= k < |features| && features[k].code == code
  }

  /** The enumeration of the catalog: its codes in list order. */
  function Codes(features: seq<FeatureInfo>): (cs: seq<uint16>)
    ensures |cs| == |features|
    ensures forall i :: 0 <= i < |features| ==> cs[i] == features[i].code
  {
    if features == [] then [] else [features[0].code] + Codes(features[1..])
  }

  /** A code is supported exactly when it is enumerated. */
  lemma SupportedIffEnumerated(features: seq<FeatureInfo>, code: uint16)
    ensures IsSupported(features, code) <==> code in Codes(features)
  {
    var cs := Codes(features);
    if code in cs {
      var k :| 0 <= k < |cs| && cs[k] == code;
      assert features[k].code == code;
    }
  }

  /** When no entry carries the index -1, GetFeatureIndex reports -1 exactly
      for the unsupported codes. */
  lemma SupportedIffIndexFound(features: seq<FeatureInfo>, code: uint16)
    requires forall k :: 0 <= k < |features| ==> features[k].index != -1
    ensures IsSupported(features, code) <==> GetFeatureIndex(features, code) != -1
  {
    if IsSupported(features, code) {
      var k :| 0 <= k < |features| && features[k].code == code;
      assert FirstWith(features, code).Some?;
    }
  }

  /** The corrected GetFeatureInfo agrees with the one as written whenever the
      code is present; the one as written cannot tell an absent code from an
      entry that is all zeros. */
  lemma GetFeatureInfoAgreement(features: seq<FeatureInfo>, code: uint16)
    ensures GetFeatureInfo(features, code).Some? ==>
              GetFeatureInfo(features, code).value == GetFeatureInfoAsWritten(features, code)
    ensures !IsSupported(features, code) ==> GetFeatureInfoAsWritten(features, code) == DefaultInfo
  {
  }

  /** Counterexample: on an empty catalog, GetFeatureInfo as written still
      returns an entry, one that claims index 0 and code 0x0000 (Root). */
  lemma GetFeatureInfoAsWrittenOnEmpty()
    ensures GetFeatureInfoAsWritten([], 0x1990) == FeatureInfo(0, RootCode, 0x00, 0x00)
    ensures GetFeatureInfo([], 0x1990) == None
  {
  }
}
