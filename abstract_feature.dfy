/** HID++ 2.0 function calls (AbstractFeature): the request frame, the rule
    that picks the response out of the incoming reports, the synthetic report
    that stands for a timeout, and the binding of a feature to its index. */
module AbstractFeature {
  import opened Common
  import opened ByteUtils
  import opened Reports
  import opened FeatureCatalog
  import opened Waits

  const ShortRequestId: byte := 0x10
  const LargeRequestId: byte := 0x11

  /** Long frames are used once the four header bytes and the parameters no
      longer fit in a short (7-byte) frame. */
  function RequestId(paramCount: nat): (id: byte)
    ensures id == LargeRequestId <==> paramCount > 3
    ensures id == ShortRequestId <==> paramCount <= 3
  {
    if paramCount + 4 > 7 then LargeRequestId else ShortRequestId
  }

  /** The function/software byte `((func << 4) & 0xF0) | sw`; the 32-bit
      shift keeps the low four bits of `func`, that is `func % 16`, and `sw`
      is the low nibble of a random byte. */
  function FuncSw(func: int, rnd: byte): (fs: byte)
    ensures (fs & 0xF0) >> 4 == (func % 16) as byte
    ensures fs & 0x0F == rnd & 0x0F
  {
    ((func % 16) as byte << 4) | (rnd & 0x0F)
  }

  /** The frame CallFunction writes. */
  function FeatureRequest(deviceIndex: byte, featureIndex: byte, func: int, rnd: byte, params: seq<byte>): seq<byte> {
    var id := RequestId(|params|);
    var w := Concat([[id, deviceIndex, featureIndex, FuncSw(func, rnd)], params]);
    if |w| < 7 && id == ShortRequestId then Resize(w, 7)
    else if |w| < 20 && id == LargeRequestId then Resize(w, 20)
    else w
  }

  /** The frame is the four header bytes, the parameters, then zeros up to 7
      (short) or 20 (long) bytes; it is never cut short. */
  lemma FeatureRequestLayout(deviceIndex: byte, featureIndex: byte, func: int, rnd: byte, params: seq<byte>)
    ensures var f := FeatureRequest(deviceIndex, featureIndex, func, rnd, params);
            && |f| == (if |params| <= 3 then 7 else if |params| <= 16 then 20 else |params| + 4)
            && f[0] == RequestId(|params|) && f[1] == deviceIndex && f[2] == featureIndex
            && f[3] == FuncSw(func, rnd)
            && f[4..4 + |params|] == params
            && forall i :: 4 + |params| <= i < |f| ==> f[i] == 0
  {
    var header := [RequestId(|params|), deviceIndex, featureIndex, FuncSw(func, rnd)];
    var f := FeatureRequest(deviceIndex, featureIndex, func, rnd, params);
    ConcatPair(header, params);
    if |params| <= 3 {
      PaddedFrame(header, params, f, 7);
    } else {
      PaddedFrame(header, params, f, 20);
    }
    assert f[0] == f[..4][0] && f[1] == f[..4][1] && f[2] == f[..4][2] && f[3] == f[..4][3];
  }

  /** Round trip: decoding the frame as a feature report gives back the
      device index, the feature index, the function number modulo 16 and the
      software id. */
  lemma FeatureRequestRoundTrip(deviceIndex: byte, featureIndex: byte, func: int, rnd: byte, params: seq<byte>)
    ensures var f := FeatureRequest(deviceIndex, featureIndex, func, rnd, params);
            var r := NewFeatureReport(f);
            && r.Ok?
            && r.value.DeviceIndex() == deviceIndex
            && r.value.FeatureIndex() == featureIndex
            && r.value.FunctionId() == (func % 16) as byte
            && r.value.SoftwareId() == rnd & 0x0F
            && (|params| > 0 ==> r.value.Data() == Ok(f[4..]) && f[4..4 + |params|] == params)
  {
    FeatureRequestLayout(deviceIndex, featureIndex, func, rnd, params);
  }

  /** The callback's acceptance rule: a feature report from the same device
      whose feature index, software id and function id are the request's. */
  predicate FeatureMatches(deviceIndex: byte, request: seq<byte>, r: Report)
    requires |request| >= 4
  {
    && r.FeatureReport? && |r.raw| > 3
    && r.FeatureIndex() == request[2]
    && r.SoftwareId() == request[3] & 0x0F
    && r.FunctionId() == (request[3] & 0xF0) >> 4
    && r.DeviceIndex() == deviceIndex
  }

  /** For a built request, acceptance is exactly agreement on the correlation
      key (device, feature index, function, software id). */
  lemma FeatureMatchesKey(deviceIndex: byte, featureIndex: byte, func: int, rnd: byte, params: seq<byte>, r: Report)
    requires r.FeatureReport? && |r.raw| > 3
    ensures |FeatureRequest(deviceIndex, featureIndex, func, rnd, params)| >= 4
    ensures FeatureMatches(deviceIndex, FeatureRequest(deviceIndex, featureIndex, func, rnd, params), r)
            <==> r.DeviceIndex() == deviceIndex && r.FeatureIndex() == featureIndex
                 && r.FunctionId() == (func % 16) as byte && r.SoftwareId() == rnd & 0x0F
  {
    FeatureRequestLayout(deviceIndex, featureIndex, func, rnd, params);
  }

  /** A device's successful long reply that repeats the request's device
      index, feature index and function/software byte is parsed by TryParse
      as a feature report and accepted, provided the feature index is below
      0x80. */
  lemma EchoIsAccepted(deviceIndex: byte, featureIndex: byte, func: int, rnd: byte, params: seq<byte>, payload: seq<byte>)
    requires featureIndex < 0x80 && |payload| == 16
    ensures var req := FeatureRequest(deviceIndex, featureIndex, func, rnd, params);
            var parsed := TryParse([LargeRequestId, deviceIndex, featureIndex, FuncSw(func, rnd)] + payload);
            && parsed.Ok? && parsed.value.Some?
            && parsed.value.value.FeatureReport? && parsed.value.value.isSuccess
            && FeatureMatches(deviceIndex, req, parsed.value.value)
  {
    var reply := [LargeRequestId, deviceIndex, featureIndex, FuncSw(func, rnd)] + payload;
    FeatureRequestLayout(deviceIndex, featureIndex, func, rnd, params);
    assert reply[0] == LargeRequestId && reply[1] == deviceIndex && reply[2] == featureIndex;
    assert reply[3] == FuncSw(func, rnd);
  }

  /** A short frame (first byte 0x10) always parses as a register report, so
      an echo of a short request, which is every request with at most 3
      parameter bytes, is dropped by the callback. */
  lemma ShortEchoRejected(deviceIndex: byte, featureIndex: byte, func: int, rnd: byte, params: seq<byte>, payload: seq<byte>)
    requires |params| <= 3 && |payload| == 3
    ensures var req := FeatureRequest(deviceIndex, featureIndex, func, rnd, params);
            var parsed := TryParse(req[..4] + payload);
            && parsed.Ok? && parsed.value.Some?
            && parsed.value.value.RegisterReport?
            && !FeatureMatches(deviceIndex, req, parsed.value.value)
  {
    var req := FeatureRequest(deviceIndex, featureIndex, func, rnd, params);
    FeatureRequestLayout(deviceIndex, featureIndex, func, rnd, params);
    var echo := req[..4] + payload;
    assert echo[0] == ShortRequestId && |echo| == 7;
  }

  /** A long reply whose feature index is 0x80 or more parses as a register
      report, so it is dropped whatever its other bytes. */
  lemma HighIndexEchoRejected(deviceIndex: byte, featureIndex: byte, func: int, rnd: byte, params: seq<byte>, payload: seq<byte>)
    requires featureIndex >= 0x80 && |payload| == 16
    ensures var req := FeatureRequest(deviceIndex, featureIndex, func, rnd, params);
            var parsed := TryParse([LargeRequestId, deviceIndex, featureIndex, FuncSw(func, rnd)] + payload);
            && parsed.Ok? && parsed.value.Some?
            && parsed.value.value.RegisterReport?
            && !FeatureMatches(deviceIndex, req, parsed.value.value)
  {
    var reply := [LargeRequestId, deviceIndex, featureIndex, FuncSw(func, rnd)] + payload;
    FeatureRequestLayout(deviceIndex, featureIndex, func, rnd, params);
    assert reply[0] == LargeRequestId && reply[2] == featureIndex;
  }

  /** The report WaitForResponse makes up when nothing matched in time. */
  function TimeoutFeatureReport(request: seq<byte>): (r: Report)
    requires |request| >= 4
    ensures r.FeatureReport? && r.raw == [0x11, request[1], 0xFF, request[3], 0x00, 0xFE]
  {
    FeatureReport([0x11, request[1], 0xFF, request[3], 0x00, 0xFE], false, 0xFE, FeatureError(0xFE))
  }

  /** The timeout report is what the report constructor builds from its bytes:
      a failure with error Timeout that keeps the function and software ids. */
  lemma TimeoutReportDecodes(request: seq<byte>)
    requires |request| >= 4
    ensures NewFeatureReport(TimeoutFeatureReport(request).raw) == Ok(TimeoutFeatureReport(request))
    ensures var t := TimeoutFeatureReport(request);
            && !t.isSuccess && t.errorCode == 0xFE && t.error == Timeout
            && t.FunctionId() == (request[3] & 0xF0) >> 4 && t.SoftwareId() == request[3] & 0x0F
            && t.DeviceIndex() == request[1]
  {
  }

  /** The wait for a feature call: the first accepted report, else the
      timeout report. */
  function AwaitFeature(deviceIndex: byte, request: seq<byte>, received: seq<Option<Report>>): (r: Report)
    requires |request| >= 4
    ensures FeatureMatches(deviceIndex, request, r) || r == TimeoutFeatureReport(request)
  {
    match FirstAccepted(r => FeatureMatches(deviceIndex, request, r), received)
    case Some(r) => r
    case None => TimeoutFeatureReport(request)
  }

  /** The wait yields the earliest accepted report, and the timeout report
      exactly when none was accepted (for a request whose feature index is
      not 0xFF, the timeout report is not itself acceptable). */
  lemma AwaitFeatureFirstMatch(deviceIndex: byte, request: seq<byte>, received: seq<Option<Report>>)
    requires |request| >= 4
    ensures (forall k :: 0 <= k < |received| && received[k].Some? ==>
               !FeatureMatches(deviceIndex, request, received[k].value)) ==>
              AwaitFeature(deviceIndex, request, received) == TimeoutFeatureReport(request)
    ensures forall k :: 0 <= k < |received| && received[k].Some? && FeatureMatches(deviceIndex, request, received[k].value)
                        && (forall j :: 0 <= j < k && received[j].Some? ==>
                              !FeatureMatches(deviceIndex, request, received[j].value)) ==>
              AwaitFeature(deviceIndex, request, received) == received[k].value
    ensures request[2] != 0xFF ==>
              (AwaitFeature(deviceIndex, request, received) == TimeoutFeatureReport(request)
               <==> forall k :: 0 <= k < |received| && received[k].Some? ==>
                      !FeatureMatches(deviceIndex, request, received[k].value))
  {
    FirstAcceptedIsEarliest(r => FeatureMatches(deviceIndex, request, r), received);
  }

  /** CallFunction: build the frame (Combine, then Array.Resize to the frame
      length); without waiting, write it and return nothing; otherwise return
      what the wait yields. */
  method CallFunction(deviceIndex: byte, featureIndex: byte, func: int, rnd: byte, params: seq<byte>,
                      waitForResponse: bool, received: seq<Option<Report>>)
    returns (written: seq<byte>, response: Option<Report>)
    ensures written == FeatureRequest(deviceIndex, featureIndex, func, rnd, params)
    ensures !waitForResponse ==> response == None
    ensures waitForResponse ==> response == Some(AwaitFeature(deviceIndex, written, received))
  {
    var requestId := RequestId(|params|);
    var header := [requestId, deviceIndex, featureIndex, FuncSw(func, rnd)];
    var wData := Combine([header, params]);
    if |wData| < 7 && requestId == ShortRequestId {
      wData := Resize(wData, 7);
    } else if |wData| < 20 && requestId == LargeRequestId {
      wData := Resize(wData, 20);
    }
    written := wData;
    if !waitForResponse {
      return written, None;
    }
    FeatureRequestLayout(deviceIndex, featureIndex, func, rnd, params);
    response := Some(AwaitFeature(deviceIndex, written, received));
  }

  // ---------------------------------------------------------------------------
  // Binding a feature object to its index

  datatype Binding = Binding(code: uint16, featureIndex: byte, version: byte)

  /** The constructor as written: the index is the caller's or the catalog's,
      cut to a byte, but only the caller's is checked against -1, so a
      feature the catalog does not know is bound to index 0xFF. */
  function BindFeatureAsWritten(features: seq<FeatureInfo>, code: uint16, featureIndex: Option<int>): Result<Binding> {
    var index := if featureIndex.Some? then featureIndex.value else GetFeatureIndex(features, code);
    if featureIndex == Some(-1) then Err(FeatureFailure(Unsupported))
    else Ok(Binding(code, Low8(index), GetFeatureInfoAsWritten(features, code).version))
  }

  /** Counterexample: an unknown feature is silently bound to index 0xFF. */
  lemma UnknownFeatureBoundTo0xFF()
    ensures BindFeatureAsWritten([], 0x1990, None) == Ok(Binding(0x1990, 0xFF, 0x00))
  {
    assert FirstWith([], 0x1990) == None;
    assert GetFeatureInfoAsWritten([], 0x1990).version == 0x00;
    var index := Low8(GetFeatureIndex([], 0x1990));
    assert index as int == 255;
  }

  /** The constructor as intended: resolve first, then refuse -1. */
  function BindFeature(features: seq<FeatureInfo>, code: uint16, featureIndex: Option<int>): (b: Result<Binding>)
    ensures b.Err? <==> (if featureIndex.Some? then featureIndex.value == -1 else GetFeatureIndex(features, code) == -1)
    ensures b.Err? ==> b.fault == FeatureFailure(Unsupported)
  {
    var index := if featureIndex.Some? then featureIndex.value else GetFeatureIndex(features, code);
    if index == -1 then Err(FeatureFailure(Unsupported))
    else
      var version := match GetFeatureInfo(features, code) case Some(f) => f.version case None => 0x00;
      Ok(Binding(code, Low8(index), version))
  }

  /** Without an explicit index, binding succeeds exactly for the supported
      features (when the catalog holds no -1 index), and then uses the
      catalog's index and version. */
  lemma BindFeatureResolves(features: seq<FeatureInfo>, code: uint16)
    requires forall k :: 0 <= k < |features| ==> features[k].index != -1
    ensures BindFeature(features, code, None).Ok? <==> IsSupported(features, code)
    ensures BindFeature(features, code, None).Ok? ==>
              var f := GetFeatureInfo(features, code).value;
              BindFeature(features, code, None).value == Binding(code, Low8(f.index), f.version)
  {
    SupportedIffIndexFound(features, code);
  }

  /** The two constructors disagree only where the one as written binds 0xFF:
      for an explicit index or a known feature they bind the same way. */
  lemma BindFeatureAgreement(features: seq<FeatureInfo>, code: uint16, featureIndex: Option<int>)
    requires featureIndex.Some? || GetFeatureIndex(features, code) != -1
    ensures BindFeature(features, code, featureIndex) == BindFeatureAsWritten(features, code, featureIndex)
  {
    GetFeatureInfoAgreement(features, code);
  }
}
