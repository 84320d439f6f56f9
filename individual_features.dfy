/** HID++ 1.0 register 0x01 (IndividualFeatures): 16 feature flags, low
    byte in payload byte 0, high byte in payload byte 2. */
module IndividualFeaturesRegister {
  import opened Common
  import opened ByteUtils
  import opened Reports
  import opened AbstractRegister
  import NotificationRegister

  const IndividualFeaturesId: byte := 0x01

  /** Set's short-set parameters: low byte, zero, high byte, the layout of
      the Notification register's device flags. */
  function SetParams(flags: uint16): (p: seq<byte>)
    ensures |p| == 3 && p[1] == 0
    ensures p[0] as int + 256 * p[2] as int == flags
  {
    NotificationRegister.SetDeviceParams(flags)
  }

  /** Set fails with the response's error. */
  function SetResult(response: Report): (s: Status)
    ensures s.Done? <==> response.isSuccess
    ensures s.Raised? ==> s.fault == RegisterFailure(response.error)
  {
    NotificationRegister.SetResult(response)
  }

  /** Get: `(payload[2] << 8) | payload[0]`, the read the Notification
      register's GetDevice is meant to make. */
  function GetResult(response: Report): (r: Result<uint16>)
    requires response.RegisterReport?
    ensures !response.isSuccess ==> r == Err(RegisterFailure(response.error))
    ensures response.isSuccess ==> (r.Ok? <==> response.At(2).Ok?)
    ensures r.Ok? ==> r.value == response.raw[6] as int * 256 + response.raw[4] as int
  {
    NotificationRegister.GetDevice(response)
  }

  /** Get after Set on an echoing register returns the same flags. */
  lemma SetThenGet(deviceIndex: byte, flags: uint16)
    ensures var written := RegisterRequest(deviceIndex, IndividualFeaturesId, SubId(SetShort), SetParams(flags));
            && |written| == 7 && written[4..] == SetParams(flags)
            && GetResult(ShortReply(deviceIndex, IndividualFeaturesId, SubId(GetShort), written[4..])) == Ok(flags)
  {
    RegisterRequestLayout(deviceIndex, IndividualFeaturesId, SubId(SetShort), SetParams(flags));
  }

  /** A timed-out Get raises the Timeout register error. */
  lemma GetTimeout(deviceIndex: byte, request: seq<byte>)
    requires |request| >= 4
    ensures GetResult(TimeoutRegisterReport(deviceIndex, request)) == Err(RegisterFailure(Timeout))
  {
  }
}
