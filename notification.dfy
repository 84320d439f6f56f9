/** HID++ 1.0 register 0x00 (Notification): which notifications the
    receiver and the device report. The receiver flags travel in payload
    byte 1, the device flags' low and high bytes in payload bytes 0 and 2. */
module NotificationRegister {
  import opened Common
  import opened ByteUtils
  import opened Reports
  import opened AbstractRegister

  const NotificationId: byte := 0x00

  /** What a Set call does with its response: nothing on success, otherwise
      a RegisterException carrying the response's error. */
  function SetResult(response: Report): (s: Status)
    ensures s.Done? <==> response.isSuccess
    ensures s.Raised? ==> s.fault == RegisterFailure(response.error)
  {
    if response.isSuccess then Done else Raised(RegisterFailure(response.error))
  }

  /** SetReceiver's short-set parameters. */
  function SetReceiverParams(flags: byte): (p: seq<byte>)
    ensures |p| == 3 && p[1] == flags && p[0] == 0 && p[2] == 0
  {
    [0x00, flags, 0x00]
  }

  /** GetReceiver: payload byte 1 of a successful response. */
  function GetReceiverResult(response: Report): (r: Result<byte>)
    requires response.RegisterReport?
    ensures !response.isSuccess ==> r == Err(RegisterFailure(response.error))
    ensures response.isSuccess ==> r == response.At(1)
  {
    if response.isSuccess then response.At(1) else Err(RegisterFailure(response.error))
  }

  /** On a register that echoes what was last set, GetReceiver returns the
      flags SetReceiver wrote. */
  lemma ReceiverRoundTrip(deviceIndex: byte, flags: byte)
    ensures var written := RegisterRequest(deviceIndex, NotificationId, SubId(SetShort), SetReceiverParams(flags));
            && |written| == 7 && written[4..] == SetReceiverParams(flags)
            && GetReceiverResult(ShortReply(deviceIndex, NotificationId, SubId(GetShort), written[4..])) == Ok(flags)
  {
    RegisterRequestLayout(deviceIndex, NotificationId, SubId(SetShort), SetReceiverParams(flags));
  }

  /** SetDevice's short-set parameters: low byte, zero, high byte. */
  function SetDeviceParams(flags: uint16): (p: seq<byte>)
    ensures |p| == 3 && p[1] == 0
    ensures p[0] as int + 256 * p[2] as int == flags
  {
    var lo := Low8(flags);
    var hi := Low8(flags / 256);
    Split16(flags);
    [lo, 0x00, hi]
  }

  /** GetDevice as written: `(payload[2] << 8) | payload[1]`, which takes the
      receiver flags byte as the low byte. */
  function GetDeviceAsWritten(response: Report): (r: Result<uint16>)
    requires response.RegisterReport?
    ensures !response.isSuccess ==> r == Err(RegisterFailure(response.error))
    ensures response.isSuccess ==> (r.Ok? <==> response.At(2).Ok?)
    ensures r.Ok? ==> r.value == response.raw[6] as int * 256 + response.raw[5] as int
  {
    if !response.isSuccess then Err(RegisterFailure(response.error))
    else
      // payload byte 1 lies before byte 2, so only the read of byte 2 can fault
      match response.At(2)
      case Err(f) => Err(f)
      case Ok(high) => Ok(high as int * 256 + response.raw[5] as int)
  }

  /** Counterexample: after SetDevice(0x0001) an echoing register answers
      with payload [0x01, 0x00, 0x00], and GetDevice as written reads 0. */
  lemma DeviceFlagsLost(deviceIndex: byte)
    ensures var written := RegisterRequest(deviceIndex, NotificationId, SubId(SetShort), SetDeviceParams(0x0001));
            |written| == 7
            && GetDeviceAsWritten(ShortReply(deviceIndex, NotificationId, SubId(GetShort), written[4..])) == Ok(0)
  {
    RegisterRequestLayout(deviceIndex, NotificationId, SubId(SetShort), SetDeviceParams(0x0001));
  }

  /** GetDevice as intended: `(payload[2] << 8) | payload[0]`, the layout
      SetDevice writes. */
  function GetDevice(response: Report): (r: Result<uint16>)
    requires response.RegisterReport?
    ensures !response.isSuccess ==> r == Err(RegisterFailure(response.error))
    ensures response.isSuccess ==> (r.Ok? <==> response.At(2).Ok?)
    ensures r.Ok? ==> r.value == response.raw[6] as int * 256 + response.raw[4] as int
  {
    if !response.isSuccess then Err(RegisterFailure(response.error))
    else
      // payload byte 0 lies before byte 2, so only the read of byte 2 can fault
      match response.At(2)
      case Err(f) => Err(f)
      case Ok(high) => Ok(high as int * 256 + response.raw[4] as int)
  }

  /** On an echoing register GetDevice returns the flags SetDevice wrote. */
  lemma DeviceRoundTrip(deviceIndex: byte, flags: uint16)
    ensures var written := RegisterRequest(deviceIndex, NotificationId, SubId(SetShort), SetDeviceParams(flags));
            && |written| == 7 && written[4..] == SetDeviceParams(flags)
            && GetDevice(ShortReply(deviceIndex, NotificationId, SubId(GetShort), written[4..])) == Ok(flags)
  {
    RegisterRequestLayout(deviceIndex, NotificationId, SubId(SetShort), SetDeviceParams(flags));
  }
}
