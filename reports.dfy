/** Report framing and decoding (HidPpReport with its three variants
    FeatureReport, RegisterReport and DjReport).

    A report keeps the raw frame and the fields its constructor computes once:
    success flag, raw error code, decoded error kind, and, per variant, the
    sub-id/address of a register report and the RF type and HID payload of a
    short-range ("DJ") report. */
module Reports {
  import opened Common
  import opened ByteUtils
  import ByteArith

  datatype Protocol = HidPp1 | HidPp2 | Dj

  datatype DjReportType = RFReport | Notification | Command

  /** The frame length implied by the first byte of a frame; 0 means unknown. */
  function GetSize(id: byte): nat {
    if id == 0x10 then 7        // short HID++
    else if id == 0x11 then 20  // long HID++
    else if id == 0x20 then 15  // short DJ
    else if id == 0x21 then 32  // long DJ
    else 0
  }

  /** Frame-length totality: four known ids, every other byte unknown. */
  lemma GetSizeTable(id: byte)
    ensures GetSize(id) != 0 <==> id in {0x10, 0x11, 0x20, 0x21}
    ensures GetSize(0x10) == 7 && GetSize(0x11) == 20 && GetSize(0x20) == 15 && GetSize(0x21) == 32
    ensures GetSize(id) != 0 ==> GetSize(id) >= 7
  {
  }

  datatype Report =
    | RegisterReport(raw: seq<byte>, isSuccess: bool, errorCode: byte, error: ReportError,
                     subId: byte, address: byte)
    | FeatureReport(raw: seq<byte>, isSuccess: bool, errorCode: byte, error: ReportError)
    | DjReport(raw: seq<byte>, isSuccess: bool, errorCode: byte, error: ReportError,
               rfReportType: byte, hidPayload: seq<byte>)
  {
    function Protocol(): Protocol {
      match this
      case RegisterReport(_, _, _, _, _, _) => HidPp1
      case FeatureReport(_, _, _, _) => HidPp2
      case DjReport(_, _, _, _, _, _) => Dj
    }

    /** Bytes before the payload. */
    function HeaderSize(): nat {
      if DjReport? then 2 else 4
    }

    function Id(): byte
      requires |raw| > 0
    {
      raw[0]
    }

    function Size(): nat
      requires |raw| > 0
    {
      GetSize(raw[0])
    }

    function DeviceIndex(): byte
      requires |raw| > 1
    {
      raw[1]
    }

    /** `RawData[HeaderSize..]`; the range throws when the header is longer than the frame. */
    function Data(): Result<seq<byte>> {
      if HeaderSize() <= |raw| then Ok(raw[HeaderSize()..]) else Err(ArgumentOutOfRange)
    }

    /** The indexer `this[i]`: `RawData[i + HeaderSize]`. */
    function At(index: int): Result<byte> {
      var a := index + HeaderSize();
      if 0 <= a < |raw| then Ok(raw[a]) else Err(IndexOutOfRange)
    }

    /** CheckDataSize lets a read through only when HeaderSize + offset + count < |RawData|. */
    predicate DataFits(offset: int, count: int) {
      HeaderSize() + offset + count < |raw|
    }

    function ReadUInt16(offset: int): (r: Result<nat>)
      ensures r.Ok? <==> DataFits(offset, 2) && HeaderSize() + offset >= 0
      ensures r.Ok? ==> r.value == BigEndian(raw[HeaderSize() + offset .. HeaderSize() + offset + 2])
                        && r.value < 0x1_0000
    {
      if !DataFits(offset, 2) then Err(ArgumentOutOfRange)
      else ToUInt16(raw, HeaderSize() + offset)
    }

    function ReadInt16(offset: int): (r: Result<int>)
      ensures r.Ok? <==> ReadUInt16(offset).Ok?
      ensures r.Ok? ==> r.value == ToSigned16(ReadUInt16(offset).value)
    {
      if !DataFits(offset, 2) then Err(ArgumentOutOfRange)
      else ToInt16(raw, HeaderSize() + offset)
    }

    function ReadUInt32(offset: int): (r: Result<nat>)
      ensures r.Ok? <==> DataFits(offset, 4) && HeaderSize() + offset >= 0
      ensures r.Ok? ==> r.value == BigEndian(raw[HeaderSize() + offset .. HeaderSize() + offset + 4])
                        && r.value < 0x1_0000_0000
    {
      if !DataFits(offset, 4) then Err(ArgumentOutOfRange)
      else
        var a := HeaderSize() + offset;
        if a < 0 then Err(IndexOutOfRange)
        else
          BigEndianQuad(raw[a..a + 4]);
          Ok(raw[a] as int * 0x100_0000 + raw[a + 1] as int * 0x1_0000
             + raw[a + 2] as int * 0x100 + raw[a + 3] as int)
    }

    function ReadInt32(offset: int): (r: Result<int>)
      ensures r.Ok? <==> ReadUInt32(offset).Ok?
      ensures r.Ok? ==> r.value == ToSigned32(ReadUInt32(offset).value)
    {
      var u :- ReadUInt32(offset);
      Ok(ToSigned32(u))
    }

    /** ReadBit reads at raw offset 4 + offset, whatever the header size. */
    function ReadBit(offset: int, bit: int): Result<bool> {
      if !DataFits(offset, 1) then Err(ArgumentOutOfRange)
      else if !(0 <= 4 + offset < |raw|) then Err(IndexOutOfRange)
      else Ok(IsBitSet(raw[4 + offset], bit))
    }

    // Feature report fields

    function FeatureIndex(): byte
      requires FeatureReport? && |raw| > 2
    {
      raw[2]
    }

    function FunctionId(): (f: byte)
      requires FeatureReport? && |raw| > 3
      ensures f < 16
    {
      (raw[3] & 0xF0) >> 4
    }

    function SoftwareId(): (s: byte)
      requires FeatureReport? && |raw| > 3
      ensures s < 16
    {
      raw[3] & 0x0F
    }

    // DJ report fields

    function DjReportType(): DjReportType
      requires DjReport? && |raw| > 2
    {
      if raw[2] <= 0x3F then RFReport
      else if raw[2] <= 0x7F then Notification
      else Command
    }

    function RfReportTypeCode(): byte
      requires DjReport? && |raw| > 2
    {
      raw[2]
    }
  }

  lemma BigEndianQuad(bs: seq<byte>)
    requires |bs| == 4
    ensures BigEndian(bs) == bs[0] as int * 0x100_0000 + bs[1] as int * 0x1_0000
                             + bs[2] as int * 0x100 + bs[3] as int
  {
    assert bs[..1][..0] == [];
    assert BigEndian(bs[..1]) == bs[0] as int;
    assert bs[..2][..1] == bs[..1];
    assert BigEndian(bs[..2]) == bs[0] as int * 0x100 + bs[1] as int;
    assert bs[..3][..2] == bs[..2];
    assert BigEndian(bs[..3]) == bs[0] as int * 0x1_0000 + bs[1] as int * 0x100 + bs[2] as int;
    assert bs[..4][..3] == bs[..3];
    assert bs[..4] == bs;
  }

  /** A complete frame, as the input receiver hands them out. */
  predicate Framed(r: Report) {
    |r.raw| > 0 && GetSize(r.raw[0]) != 0 && |r.raw| == GetSize(r.raw[0])
  }

  // ---------------------------------------------------------------------------
  // Error codes

  const FeatureErrorCodes: set<byte> := {0x00, 0x01, 0x02, 0x03, 0x04, 0x05, 0x06, 0x07, 0x08, 0x09, 0xFE, 0xFF}

  /** The error kind of a failed HID++ 2.0 report. */
  function FeatureError(code: byte): (e: ReportError)
    ensures code !in FeatureErrorCodes ==> e == Unknown
  {
    if code == 0x00 then NoError
    else if code == 0x01 then Unknown
    else if code == 0x02 then InvalidArgument
    else if code == 0x03 then OutOfRange
    else if code == 0x04 then HardwareError
    else if code == 0x05 then LogitechInternal
    else if code == 0x06 then InvalidFeature
    else if code == 0x07 then InvalidFunctionId
    else if code == 0x08 then Busy
    else if code == 0x09 then Unsupported
    else if code == 0xFE then Timeout
    else if code == 0xFF then HidPpInternal
    else Unknown
  }

  /** The code a device sends for an error kind of HID++ 2.0, if it has one. */
  function FeatureErrorCode(e: ReportError): Option<byte> {
    match e
    case NoError => Some(0x00)
    case InvalidArgument => Some(0x02)
    case OutOfRange => Some(0x03)
    case HardwareError => Some(0x04)
    case LogitechInternal => Some(0x05)
    case InvalidFeature => Some(0x06)
    case InvalidFunctionId => Some(0x07)
    case Busy => Some(0x08)
    case Unsupported => Some(0x09)
    case Timeout => Some(0xFE)
    case HidPpInternal => Some(0xFF)
    case _ => None
  }

  /** Decoding inverts encoding, and the only kind a device cannot send by a
      code of its own is Unknown's fallback. */
  lemma FeatureErrorRoundTrip(e: ReportError, code: byte)
    ensures FeatureErrorCode(e).Some? ==> FeatureError(FeatureErrorCode(e).value) == e
    ensures FeatureError(code) != Unknown ==> FeatureErrorCode(FeatureError(code)) == Some(code)
  {
  }

  const RegisterErrorCodes: set<byte> :=
    {0x00, 0x01, 0x02, 0x03, 0x04, 0x05, 0x06, 0x07, 0x08, 0x09, 0x0A, 0x0B, 0x0C, 0xFE, 0xFF}

  /** The error kind of a failed HID++ 1.0 report. */
  function RegisterError(code: byte): (e: ReportError)
    ensures code !in RegisterErrorCodes ==> e == Unknown
  {
    if code == 0x00 then NoError
    else if code == 0x01 then InvalidSubId
    else if code == 0x02 then InvalidAddress
    else if code == 0x03 then InvalidValue
    else if code == 0x04 then ConnectFailed
    else if code == 0x05 then TooManyDevices
    else if code == 0x06 then AlreadyExists
    else if code == 0x07 then Busy
    else if code == 0x08 then UnknownDevice
    else if code == 0x09 then ResourceError
    else if code == 0x0A then RequestUnavailable
    else if code == 0x0B then InvalidArgument
    else if code == 0x0C then WrongPinCode
    else if code == 0xFE then Timeout
    else if code == 0xFF then HidPpInternal
    else Unknown
  }

  function RegisterErrorCode(e: ReportError): Option<byte> {
    match e
    case NoError => Some(0x00)
    case InvalidSubId => Some(0x01)
    case InvalidAddress => Some(0x02)
    case InvalidValue => Some(0x03)
    case ConnectFailed => Some(0x04)
    case TooManyDevices => Some(0x05)
    case AlreadyExists => Some(0x06)
    case Busy => Some(0x07)
    case UnknownDevice => Some(0x08)
    case ResourceError => Some(0x09)
    case RequestUnavailable => Some(0x0A)
    case InvalidArgument => Some(0x0B)
    case WrongPinCode => Some(0x0C)
    case Timeout => Some(0xFE)
    case HidPpInternal => Some(0xFF)
    case _ => None
  }

  lemma RegisterErrorRoundTrip(e: ReportError, code: byte)
    ensures RegisterErrorCode(e).Some? ==> RegisterError(RegisterErrorCode(e).value) == e
    ensures RegisterError(code) != Unknown <==> code in RegisterErrorCodes
    ensures code in RegisterErrorCodes ==> RegisterErrorCode(RegisterError(code)) == Some(code)
  {
  }

  function DjError(code: byte): (e: ReportError)
    ensures e == KeepAliveTimeout <==> code == 0x01
    ensures e == KeepAliveTimeout || e == Unknown
  {
    if code == 0x01 then KeepAliveTimeout else Unknown
  }

  // ---------------------------------------------------------------------------
  // Variant constructors. Each reads rawData[0] (the size) and rawData[2];
  // the other bytes it needs depend on the success flag.

  function NewFeatureReport(raw: seq<byte>): (r: Result<Report>)
    ensures r.Ok? <==> |raw| >= 3 && (raw[2] == 0xFF ==> |raw| >= 6)
    ensures r.Err? ==> r.fault == IndexOutOfRange
    ensures r.Ok? ==> r.value.FeatureReport? && r.value.raw == raw && r.value.HeaderSize() == 4
                      && (r.value.isSuccess <==> raw[2] != 0xFF)
    ensures r.Ok? && r.value.isSuccess ==> r.value.errorCode == 0 && r.value.error == NoError
    ensures r.Ok? && !r.value.isSuccess ==> r.value.errorCode == raw[5] && r.value.error == FeatureError(raw[5])
  {
    if |raw| < 3 then Err(IndexOutOfRange)
    else if raw[2] != 0xFF then Ok(FeatureReport(raw, true, 0x00, NoError))
    else if |raw| < 6 then Err(IndexOutOfRange)
    else Ok(FeatureReport(raw, false, raw[5], FeatureError(raw[5])))
  }

  function NewRegisterReport(raw: seq<byte>): (r: Result<Report>)
    ensures r.Ok? <==> (|raw| >= 4 && raw[2] != 0x8F) || (|raw| >= 6 && raw[2] == 0x8F)
    ensures r.Err? ==> r.fault == IndexOutOfRange
    ensures r.Ok? ==> r.value.RegisterReport? && r.value.raw == raw && r.value.HeaderSize() == 4
                      && (r.value.isSuccess <==> raw[2] != 0x8F)
    ensures r.Ok? && r.value.isSuccess ==>
              r.value.subId == raw[2] && r.value.address == raw[3] && r.value.errorCode == 0 && r.value.error == NoError
    ensures r.Ok? && !r.value.isSuccess ==>
              r.value.subId == raw[3] && r.value.address == raw[4]
              && r.value.errorCode == raw[5] && r.value.error == RegisterError(raw[5])
  {
    if |raw| < 3 then Err(IndexOutOfRange)
    else if raw[2] != 0x8F then
      if |raw| < 4 then Err(IndexOutOfRange)
      else Ok(RegisterReport(raw, true, 0x00, NoError, raw[2], raw[3]))
    else if |raw| < 6 then Err(IndexOutOfRange)
    else Ok(RegisterReport(raw, false, raw[5], RegisterError(raw[5]), raw[3], raw[4]))
  }

  /** The HID payload the DJ constructor slices out of an RF report, chosen by rawData[1]. */
  function RfPayload(raw: seq<byte>): Result<seq<byte>>
    requires |raw| >= 3
  {
    var kind := raw[1];
    if kind == 0x01 || kind == 0x02 then
      (if |raw| < 10 then Err(ArgumentOutOfRange) else Ok(raw[3..10]))
    else if kind == 0x03 then
      (if |raw| < 6 then Err(ArgumentOutOfRange) else Ok(raw[3..6]))
    else if kind == 0x04 || kind == 0x08 || kind == 0x0E then Ok([])
    else Ok(raw[3..])
  }

  /** The payload length for each RF report kind. */
  lemma RfPayloadLength(raw: seq<byte>)
    requires |raw| >= 10
    ensures RfPayload(raw).Ok?
    ensures var n := |RfPayload(raw).value|;
            if raw[1] in {0x01, 0x02} then n == 7
            else if raw[1] == 0x03 then n == 3
            else if raw[1] in {0x04, 0x08, 0x0E} then n == 0
            else n == |raw| - 3
    ensures RfPayload(raw).value == raw[3 .. 3 + |RfPayload(raw).value|]
  {
  }

  function NewDjReport(raw: seq<byte>): (r: Result<Report>)
    ensures r.Ok? <==> |raw| >= 3 && (raw[2] == 0x7F ==> |raw| >= 4) && (raw[2] <= 0x3F ==> RfPayload(raw).Ok?)
    ensures r.Ok? ==> r.value.DjReport? && r.value.raw == raw && r.value.HeaderSize() == 2
                      && (r.value.isSuccess <==> raw[2] != 0x7F)
    ensures r.Ok? && r.value.isSuccess ==> r.value.errorCode == 0 && r.value.error == NoError
    ensures r.Ok? && !r.value.isSuccess ==> r.value.errorCode == raw[3] && r.value.error == DjError(raw[3])
    ensures r.Ok? && raw[2] <= 0x3F ==> r.value.rfReportType == raw[2] && Ok(r.value.hidPayload) == RfPayload(raw)
    ensures r.Ok? && raw[2] > 0x3F ==> r.value.rfReportType == 0x00 && r.value.hidPayload == []
  {
    if |raw| < 3 then Err(IndexOutOfRange)
    else if raw[2] == 0x7F && |raw| < 4 then Err(IndexOutOfRange)
    else
      var ok := raw[2] != 0x7F;
      var code: byte := if ok then 0x00 else raw[3];
      var error := if ok then NoError else DjError(raw[3]);
      if raw[2] <= 0x3F then
        var payload :- RfPayload(raw);
        Ok(DjReport(raw, ok, code, error, raw[2], payload))
      else
        Ok(DjReport(raw, ok, code, error, 0x00, []))
  }

  /** The DJ report kind agrees with what the constructor kept: an RF report
      (type code up to 0x3F) keeps its type code and payload slice, and the
      error marker 0x7F makes a failed Notification. */
  lemma DjReportKinds(raw: seq<byte>)
    requires NewDjReport(raw).Ok?
    ensures var r := NewDjReport(raw).value;
            && (r.DjReportType() == RFReport <==> r.rfReportType == raw[2] && Ok(r.hidPayload) == RfPayload(raw))
            && (!r.isSuccess ==> r.DjReportType() == Notification)
            && (r.DjReportType() == Command <==> raw[2] >= 0x80)
            && r.RfReportTypeCode() == raw[2]
  {
  }

  // ---------------------------------------------------------------------------
  // Variant selection

  /** TryParse: Ok(None) for an unknown first byte, a fault when a byte it
      needs is missing. */
  function TryParse(data: seq<byte>): Result<Option<Report>> {
    if |data| == 0 then Err(IndexOutOfRange)
    else if data[0] == 0x10 then
      var r :- NewRegisterReport(data); Ok(Some(r))
    else if data[0] == 0x11 then
      if |data| < 3 then Err(IndexOutOfRange)
      else if data[2] >= 0x80 then
        var r :- NewRegisterReport(data); Ok(Some(r))
      else
        var r :- NewFeatureReport(data); Ok(Some(r))
    else if data[0] == 0x20 || data[0] == 0x21 then
      var r :- NewDjReport(data); Ok(Some(r))
    else Ok(None)
  }

  /** On a buffer that holds at least one frame's worth of bytes, TryParse
      never faults and yields a report exactly when the first byte has a
      known frame length. */
  lemma TryParseKnownIds(data: seq<byte>)
    requires |data| > 0 && |data| >= GetSize(data[0])
    ensures TryParse(data).Ok?
    ensures TryParse(data).value.Some? <==> GetSize(data[0]) != 0
    ensures TryParse(data).value.Some? ==> TryParse(data).value.value.raw == data
  {
  }

  /** Which variant a complete frame decodes to. */
  lemma TryParseVariant(data: seq<byte>)
    requires |data| > 0 && GetSize(data[0]) != 0 && |data| >= GetSize(data[0])
    ensures TryParse(data).Ok? && TryParse(data).value.Some?
    ensures var r := TryParse(data).value.value;
            && (data[0] == 0x10 ==> r.RegisterReport?)
            && (data[0] == 0x11 ==> (r.RegisterReport? <==> data[2] >= 0x80) && (r.FeatureReport? <==> data[2] < 0x80))
            && (data[0] in {0x20, 0x21} <==> r.DjReport?)
  {
  }

  /** A parsed complete frame is Framed. */
  lemma TryParseFramed(data: seq<byte>)
    requires |data| > 0 && GetSize(data[0]) != 0 && |data| == GetSize(data[0])
    ensures TryParse(data).Ok? && TryParse(data).value.Some?
    ensures Framed(TryParse(data).value.value)
  {
  }

  /** A device's HID++ 2.0 error frame carries 0xFF at byte 2, so on a long
      frame TryParse hands it out as a (successful) register report, never as
      a failed feature report. */
  lemma FeatureErrorFrameIsRegisterReport(data: seq<byte>)
    requires |data| == 20 && data[0] == 0x11 && data[2] == 0xFF
    ensures TryParse(data).Ok? && TryParse(data).value.Some?
    ensures TryParse(data).value.value.RegisterReport? && TryParse(data).value.value.isSuccess
  {
  }

  // ---------------------------------------------------------------------------
  // Field accessors

  /** Data is the frame after the header, and the indexer reads the same bytes. */
  lemma DataAgreesWithIndexer(r: Report)
    requires r.Data().Ok?
    ensures |r.Data().value| == |r.raw| - r.HeaderSize()
    ensures forall i :: 0 <= i < |r.Data().value| ==>
              r.At(i) == Ok(r.Data().value[i]) && r.Data().value[i] == r.raw[r.HeaderSize() + i]
    ensures forall i :: i < 0 - r.HeaderSize() || i >= |r.Data().value| ==> r.At(i).Err?
  {
  }

  /** The feature report's function and software ids are its fourth byte's
      two nibbles. */
  lemma NibblesRecombine(r: Report)
    requires r.FeatureReport? && |r.raw| > 3
    ensures (r.FunctionId() << 4) | r.SoftwareId() == r.raw[3]
  {
  }

  /** The reader's check is strict: the last `count` bytes of a frame cannot be
      read, although they exist. */
  lemma ReadersRefuseLastBytes(r: Report)
    requires |r.raw| >= r.HeaderSize() + 4
    ensures r.ReadUInt16(|r.raw| - r.HeaderSize() - 2).Err?
    ensures r.ReadUInt16(|r.raw| - r.HeaderSize() - 3).Ok?
    ensures r.ReadUInt32(|r.raw| - r.HeaderSize() - 4).Err?
  {
  }

  /** ReadBit checks the data size against the header but reads at raw
      offset 4 + offset; for a feature or register report both agree. */
  lemma ReadBitAt(r: Report, offset: int, bit: int)
    requires !r.DjReport?
    ensures r.ReadBit(offset, bit).Ok? <==> r.DataFits(offset, 1) && 4 + offset >= 0
    ensures r.ReadBit(offset, bit).Ok? ==> r.ReadBit(offset, bit).value == IsBitSet(r.raw[4 + offset], bit)
  {
  }

  // ---------------------------------------------------------------------------
  // ReadNumber: a loop folding `length` bytes big-endian into a 64-bit value

  const TwoTo64: nat := 0x1_0000_0000_0000_0000

  /** What ReadNumber returns: the big-endian value of raw[4+offset ..
      4+offset+length], shifted through a 64-bit accumulator. */
  function NumberAt(r: Report, offset: int, length: int): Result<nat> {
    if !r.DataFits(offset, length) then Err(ArgumentOutOfRange)
    else if length <= 0 then Ok(0)
    else if 4 + offset < 0 || 4 + offset + length > |r.raw| then Err(IndexOutOfRange)
    else Ok(BigEndian(r.raw[4 + offset .. 4 + offset + length]) % TwoTo64)
  }

  /** One step of the accumulator: `(acc << 8) | b` on a 64-bit unsigned value. */
  function ShiftIn(acc: nat, b: byte): nat {
    (acc * 256 + b as int) % TwoTo64
  }

  /** Reducing the accumulator each step gives the reduced big-endian value. */
  lemma ShiftInAppend(prefix: seq<byte>, b: byte, acc: nat)
    requires acc == BigEndian(prefix) % TwoTo64
    ensures ShiftIn(acc, b) == BigEndian(prefix + [b]) % TwoTo64
  {
    assert (prefix + [b])[..|prefix|] == prefix;
    assert BigEndian(prefix + [b]) == BigEndian(prefix) * 256 + b as int;
    ByteArith.ShiftMod(BigEndian(prefix), b as int);
  }

  method ReadNumber(r: Report, offset: int, length: int) returns (res: Result<nat>)
    ensures res == NumberAt(r, offset, length)
  {
    if !r.DataFits(offset, length) {
      return Err(ArgumentOutOfRange);
    }
    var start := offset + 4;
    var acc: nat := 0;
    var i := 0;
    ghost var prefix: seq<byte> := [];
    while i < length
      invariant 0 <= i && (length >= 0 ==> i <= length)
      invariant |prefix| == i && acc == BigEndian(prefix) % TwoTo64
      invariant i > 0 ==> 0 <= start && start + i <= |r.raw| && prefix == r.raw[start .. start + i]
    {
      if !(0 <= start + i < |r.raw|) {
        NumberAtOutOfFrame(r, offset, length, i);
        return Err(IndexOutOfRange);
      }
      var b := r.raw[start + i];
      assert r.raw[start .. start + i + 1] == r.raw[start .. start + i] + [b];
      ShiftInAppend(prefix, b, acc);
      acc := ShiftIn(acc, b);
      prefix := prefix + [b];
      i := i + 1;
    }
    if length <= 0 {
      return Ok(0);
    }
    NumberAtOfPrefix(r, offset, length);
    return Ok(acc);
  }

  /** A byte index outside the raw frame fails the whole read. */
  lemma NumberAtOutOfFrame(r: Report, offset: int, length: int, i: int)
    requires r.DataFits(offset, length) && 0 <= i < length
    requires !(0 <= 4 + offset + i < |r.raw|)
    ensures NumberAt(r, offset, length) == Err(IndexOutOfRange)
  {
  }

  /** Otherwise the read folds the `length` bytes from raw[4+offset]. */
  lemma NumberAtOfPrefix(r: Report, offset: int, length: int)
    requires r.DataFits(offset, length) && length > 0
    requires 0 <= 4 + offset && 4 + offset + length <= |r.raw|
    ensures NumberAt(r, offset, length) == Ok(BigEndian(r.raw[4 + offset .. 4 + offset + length]) % TwoTo64)
  {
  }

  /** Up to eight bytes fit the accumulator, so nothing is shifted out. */
  lemma NumberAtExact(r: Report, offset: int, length: int)
    requires 0 < length <= 8 && NumberAt(r, offset, length).Ok?
    ensures NumberAt(r, offset, length).value == BigEndian(r.raw[4 + offset .. 4 + offset + length])
  {
    var bs := r.raw[4 + offset .. 4 + offset + length];
    BigEndianBound(bs);
    Pow256Monotone(|bs|, 8);
  }

  lemma {:induction false} Pow256Monotone(m: nat, n: nat)
    requires m <= n
    ensures Pow256(m) <= Pow256(n)
    decreases n - m
  {
    if m < n {
      Pow256Monotone(m + 1, n);
    }
  }

  /** For a HID++ report (header 4) a read the size check lets through never
      leaves the frame; a short-range report (header 2) can still run past
      its end, because ReadNumber's offset is 4 whatever the header. */
  lemma NumberAtInBounds(r: Report, offset: int, length: int)
    requires !r.DjReport? && offset >= -4 && length > 0 && r.DataFits(offset, length)
    ensures NumberAt(r, offset, length).Ok?
  {
  }
}
