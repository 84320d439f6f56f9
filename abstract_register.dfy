/** HID++ 1.0 register access (AbstractRegister): the request frame for the
    four access kinds, the rule that picks the response, and the synthetic
    report that stands for a timeout. */
module AbstractRegister {
  import opened Common
  import opened ByteUtils
  import opened Reports
  import opened Waits

  const ShortRequestId: byte := 0x10
  const LongRequestId: byte := 0x11

  /** The four register primitives. */
  datatype Access = SetShort | GetShort | SetLong | GetLong

  function SubId(a: Access): (s: byte)
    ensures s in {0x80, 0x81, 0x82, 0x83}
  {
    match a
    case SetShort => 0x80
    case GetShort => 0x81
    case SetLong => 0x82
    case GetLong => 0x83
  }

  /** Different primitives use different sub-ids, none of them the error marker. */
  lemma SubIdsDistinct(a: Access, b: Access)
    ensures SubId(a) == SubId(b) <==> a == b
    ensures SubId(a) != 0x8F
  {
  }

  /** The frame for a request, chosen short or long by `isShort`: header,
      parameters, then zeros when the frame is shorter than 7 or 20 bytes. */
  function RegisterFrame(isShort: bool, deviceIndex: byte, register: byte, subId: byte, params: seq<byte>): seq<byte> {
    var data := Concat([[if isShort then ShortRequestId else LongRequestId, deviceIndex, subId, register], params]);
    if isShort && |data| < 7 then Resize(data, 7)
    else if !isShort && |data| < 20 then Resize(data, 20)
    else data
  }

  /** RequestRegister as written: a request is short when it has at most 7
      parameter bytes, so 4 to 7 parameters make an 8- to 11-byte frame
      with the short id, whose frame length is 7. */
  function RegisterRequestAsWritten(deviceIndex: byte, register: byte, subId: byte, params: seq<byte>): seq<byte> {
    RegisterFrame(|params| <= 7, deviceIndex, register, subId, params)
  }

  /** Counterexample: four parameter bytes give an 8-byte frame marked short. */
  lemma OverlongShortRegisterRequest(deviceIndex: byte, register: byte, subId: byte, params: seq<byte>)
    requires 4 <= |params| <= 7
    ensures var f := RegisterRequestAsWritten(deviceIndex, register, subId, params);
            f[0] == ShortRequestId && |f| == |params| + 4 && |f| != GetSize(f[0])
  {
    ConcatPair([ShortRequestId, deviceIndex, subId, register], params);
  }

  /** The frame as written is the header, the parameters, then zeros; up to
      3 or from 8 to 16 parameter bytes its length is the one its first byte
      announces, and 4 to 7 parameter bytes give a frame of `|params| + 4`. */
  lemma RegisterRequestAsWrittenLayout(deviceIndex: byte, register: byte, subId: byte, params: seq<byte>)
    ensures var f := RegisterRequestAsWritten(deviceIndex, register, subId, params);
            && f[..4] == [if |params| <= 7 then ShortRequestId else LongRequestId, deviceIndex, subId, register]
            && f[4..4 + |params|] == params
            && (forall i :: 4 + |params| <= i < |f| ==> f[i] == 0)
            && |f| == (if |params| <= 3 then 7 else if |params| <= 7 || |params| > 16 then |params| + 4 else 20)
  {
    var header := [if |params| <= 7 then ShortRequestId else LongRequestId, deviceIndex, subId, register];
    var f := RegisterRequestAsWritten(deviceIndex, register, subId, params);
    ConcatPair(header, params);
    if |params| <= 7 {
      PaddedFrame(header, params, f, 7);
    } else {
      PaddedFrame(header, params, f, 20);
    }
  }

  /** RequestRegister as intended: short exactly when header and parameters
      fit in 7 bytes, as for feature calls. */
  function RegisterRequest(deviceIndex: byte, register: byte, subId: byte, params: seq<byte>): seq<byte> {
    RegisterFrame(|params| + 4 <= 7, deviceIndex, register, subId, params)
  }

  /** The frame is the header, the parameters, then zeros; up to 16
      parameter bytes, its length is the one its first byte announces. */
  lemma RegisterRequestLayout(deviceIndex: byte, register: byte, subId: byte, params: seq<byte>)
    ensures var f := RegisterRequest(deviceIndex, register, subId, params);
            && f[..4] == [if |params| <= 3 then ShortRequestId else LongRequestId, deviceIndex, subId, register]
            && f[4..4 + |params|] == params
            && (forall i :: 4 + |params| <= i < |f| ==> f[i] == 0)
            && (|params| <= 16 ==> |f| == GetSize(f[0]))
            && (|params| > 16 ==> |f| == |params| + 4)
  {
    var header := [if |params| <= 3 then ShortRequestId else LongRequestId, deviceIndex, subId, register];
    var f := RegisterRequest(deviceIndex, register, subId, params);
    ConcatPair(header, params);
    if |params| <= 3 {
      PaddedFrame(header, params, f, 7);
    } else {
      PaddedFrame(header, params, f, 20);
    }
  }

  /** The two versions differ only for 4 to 7 parameter bytes. */
  lemma RegisterRequestAgreement(deviceIndex: byte, register: byte, subId: byte, params: seq<byte>)
    requires |params| <= 3 || |params| > 7
    ensures RegisterRequest(deviceIndex, register, subId, params)
            == RegisterRequestAsWritten(deviceIndex, register, subId, params)
  {
  }

  /** The callback's acceptance rule: a register report from the same device
      with the request's sub-id and address. */
  predicate RegisterMatches(deviceIndex: byte, request: seq<byte>, r: Report)
    requires |request| >= 4
  {
    r.RegisterReport? && |r.raw| > 1 && r.DeviceIndex() == deviceIndex
    && r.subId == request[2] && r.address == request[3]
  }

  /** A device's error reply names the failed request's sub-id and address
      behind the 0x8F marker, and is accepted. */
  lemma ErrorReplyAccepted(deviceIndex: byte, request: seq<byte>, code: byte, pad: byte)
    requires |request| >= 4
    ensures var r := NewRegisterReport([0x10, deviceIndex, 0x8F, request[2], request[3], code, pad]);
            && r.Ok? && !r.value.isSuccess && r.value.error == RegisterError(code)
            && RegisterMatches(deviceIndex, request, r.value)
  {
  }

  /** The report WaitForResponse makes up when nothing matched in time. */
  function TimeoutRegisterReport(deviceIndex: byte, request: seq<byte>): (r: Report)
    requires |request| >= 4
    ensures r.RegisterReport? && r.raw == [0x10, deviceIndex, 0x8F, request[2], request[3], 0xFE, 0x00]
  {
    RegisterReport([0x10, deviceIndex, 0x8F, request[2], request[3], 0xFE, 0x00], false, 0xFE, Timeout,
                   request[2], request[3])
  }

  /** The timeout report is what the constructor builds from its bytes: a
      failure with error Timeout that keeps the request's sub-id and address,
      so it satisfies the acceptance rule itself. */
  lemma TimeoutRegisterReportDecodes(deviceIndex: byte, request: seq<byte>)
    requires |request| >= 4
    ensures NewRegisterReport(TimeoutRegisterReport(deviceIndex, request).raw)
            == Ok(TimeoutRegisterReport(deviceIndex, request))
    ensures var t := TimeoutRegisterReport(deviceIndex, request);
            !t.isSuccess && t.error == Timeout && t.errorCode == 0xFE && Framed(t)
            && RegisterMatches(deviceIndex, request, t)
  {
  }

  /** The wait for a register call: the first accepted report, else the
      timeout report. */
  function AwaitRegister(deviceIndex: byte, request: seq<byte>, received: seq<Option<Report>>): (r: Report)
    requires |request| >= 4
    ensures RegisterMatches(deviceIndex, request, r)
  {
    match FirstAccepted(r => RegisterMatches(deviceIndex, request, r), received)
    case Some(r) => r
    case None => TimeoutRegisterReport(deviceIndex, request)
  }

  lemma AwaitRegisterFirstMatch(deviceIndex: byte, request: seq<byte>, received: seq<Option<Report>>)
    requires |request| >= 4
    ensures (forall k :: 0 <= k < |received| && received[k].Some? ==>
               !RegisterMatches(deviceIndex, request, received[k].value)) ==>
              AwaitRegister(deviceIndex, request, received) == TimeoutRegisterReport(deviceIndex, request)
    ensures forall k :: 0 <= k < |received| && received[k].Some? && RegisterMatches(deviceIndex, request, received[k].value)
                        && (forall j :: 0 <= j < k && received[j].Some? ==>
                              !RegisterMatches(deviceIndex, request, received[j].value)) ==>
              AwaitRegister(deviceIndex, request, received) == received[k].value
  {
    FirstAcceptedIsEarliest(r => RegisterMatches(deviceIndex, request, r), received);
  }

  /** RequestRegister: build the frame by Combine and Array.Resize, short
      when there are at most 7 parameter bytes, then wait. Every register of
      the library passes at most 3, where this is the intended frame. */
  method RequestRegister(deviceIndex: byte, register: byte, subId: byte, params: seq<byte>,
                         received: seq<Option<Report>>)
    returns (written: seq<byte>, response: Report)
    ensures written == RegisterRequestAsWritten(deviceIndex, register, subId, params)
    ensures |params| <= 3 || |params| > 7 ==> written == RegisterRequest(deviceIndex, register, subId, params)
    ensures response == AwaitRegister(deviceIndex, written, received)
  {
    var isShort := |params| <= 7;
    var data := Combine([[if isShort then ShortRequestId else LongRequestId, deviceIndex, subId, register], params]);
    if isShort && |data| < 7 {
      data := Resize(data, 7);
    } else if !isShort && |data| < 20 {
      data := Resize(data, 20);
    }
    written := data;
    RegisterRequestAsWrittenLayout(deviceIndex, register, subId, params);
    if |params| <= 3 || |params| > 7 {
      RegisterRequestAgreement(deviceIndex, register, subId, params);
    }
    response := AwaitRegister(deviceIndex, written, received);
  }

  /** SetRegisterShort, GetRegisterShort, SetRegisterLong and GetRegisterLong:
      the register id is the address. */
  method AccessRegister(a: Access, deviceIndex: byte, registerId: byte, params: seq<byte>,
                        received: seq<Option<Report>>)
    returns (written: seq<byte>, response: Report)
    ensures written == RegisterRequestAsWritten(deviceIndex, registerId, SubId(a), params)
    ensures |params| <= 3 || |params| > 7 ==> written == RegisterRequest(deviceIndex, registerId, SubId(a), params)
    ensures |written| >= 4 && written[1] == deviceIndex && written[2] == SubId(a) && written[3] == registerId
    ensures response == AwaitRegister(deviceIndex, written, received)
    ensures response.RegisterReport? && response.subId == SubId(a) && response.address == registerId
  {
    written, response := RequestRegister(deviceIndex, registerId, SubId(a), params, received);
    RegisterRequestAsWrittenLayout(deviceIndex, registerId, SubId(a), params);
  }

  /** A device's successful short reply: header (echoing the sub-id and
      the register) and three payload bytes. */
  function ShortReply(deviceIndex: byte, registerId: byte, subId: byte, payload: seq<byte>): (r: Report)
    requires |payload| == 3 && subId != 0x8F
    ensures Ok(r) == NewRegisterReport([ShortRequestId, deviceIndex, subId, registerId] + payload)
    ensures r.isSuccess && Framed(r) && r.Data() == Ok(payload)
  {
    var raw := [ShortRequestId, deviceIndex, subId, registerId] + payload;
    assert raw[4..] == payload;
    NewRegisterReport(raw).value
  }

  /** Such a reply is the response to the access it echoes, whatever the
      parameters of the request were. */
  lemma ShortReplyAccepted(a: Access, deviceIndex: byte, registerId: byte, params: seq<byte>, payload: seq<byte>)
    requires |payload| == 3
    ensures var req := RegisterRequest(deviceIndex, registerId, SubId(a), params);
            var reply := ShortReply(deviceIndex, registerId, SubId(a), payload);
            |req| >= 4 && RegisterMatches(deviceIndex, req, reply)
            && AwaitRegister(deviceIndex, req, [Some(reply)]) == reply
  {
    RegisterRequestLayout(deviceIndex, registerId, SubId(a), params);
    var req := RegisterRequest(deviceIndex, registerId, SubId(a), params);
    var reply := ShortReply(deviceIndex, registerId, SubId(a), payload);
    AwaitRegisterFirstMatch(deviceIndex, req, [Some(reply)]);
  }
}
