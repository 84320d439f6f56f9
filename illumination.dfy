/** Feature 0x1990 (Illumination): brightness and colour temperature of a
    light, their capability info, and the level tables in their linear
    (min, max, step) and non-linear (explicit values) forms. */
module Illumination {
  import opened Common
  import opened ByteUtils
  import opened Reports
  import ByteArith

  const FuncGetIllumination: int := 0x00
  const FuncSetIllumination: int := 0x01
  const FuncGetBrightnessInfo: int := 0x02
  const FuncGetBrightness: int := 0x03
  const FuncSetBrightness: int := 0x04
  const FuncGetBrightnessLevels: int := 0x05
  const FuncSetBrightnessLevels: int := 0x06
  const FuncGetColorTemperatureInfo: int := 0x07
  const FuncGetColorTemperature: int := 0x08
  const FuncSetColorTemperature: int := 0x09
  const FuncGetColorTemperatureLevels: int := 0x0A
  const FuncSetColorTemperatureLevels: int := 0x0B

  const CapabilityEvents: byte := 0x01
  const CapabilityLinearLevels: byte := 0x02
  const CapabilityNonLinearLevels: byte := 0x04

  // ---------------------------------------------------------------------------
  // Byte-level helpers

  lemma Nibbles(b: byte)
    ensures ((b & 0xF0) >> 4) as int == b as int / 16
    ensures (b & 0x0F) as int == b as int % 16
  {
  }

  lemma JoinNibbles(x: byte, y: byte)
    requires x < 16 && y < 16
    ensures ((x << 4) | y) as int == x as int * 16 + y as int
  {
  }

  lemma Low8Times16(x: int)
    ensures Low8(x * 16) as int / 16 == x % 16
    ensures Low8(x * 16) as int % 16 == 0
  {
    var q := x / 16;
    var r := x % 16;
    assert x * 16 == 256 * q + 16 * r;
    assert (x * 16) % 256 == 16 * r;
  }

  /** A window of a frame that holds `p` at `off` holds the matching window of `p`. */
  lemma SliceOf(raw: seq<byte>, p: seq<byte>, off: nat, k: nat, len: nat)
    requires off + |p| <= |raw| && raw[off..off + |p|] == p && k + len <= |p|
    ensures raw[off + k .. off + k + len] == p[k .. k + len]
  {
    var a := raw[off + k .. off + k + len];
    var b := p[k .. k + len];
    forall j | 0 <= j < len
      ensures a[j] == b[j]
    {
      assert raw[off..off + |p|][k + j] == raw[off + k + j];
    }
    assert a == b;
  }

  lemma LowNibbleOf(x: int)
    ensures (Low8(x) & 0x0F) as int == x % 16
  {
    Nibbles(Low8(x));
    var r := x % 256;
    var q := x / 256;
    assert x == 256 * q + r;
    assert x == 16 * (16 * q + r / 16) + r % 16;
  }

  /** A 16-bit value with its two bytes exchanged: what a big-endian reader
      sees in the bytes BitConverter writes. */
  function Swap16(v: nat): (s: nat)
    ensures s < 0x1_0000
  {
    (v % 256) * 256 + (v / 256) % 256
  }

  lemma ReadBackSwapped(v: nat)
    ensures BigEndian(LittleEndian(v, 2)) == Swap16(v)
  {
    LittleEndianPair(v);
    BigEndianPair(Low8(v), Low8(v / 256));
  }

  // ---------------------------------------------------------------------------
  // Simple calls

  /** Every Set function: nothing on success, else a FeatureException with
      the response's error. */
  function SetResult(response: Report): (s: Status)
    ensures s.Done? <==> response.isSuccess
    ensures s.Raised? ==> s.fault == FeatureFailure(response.error)
  {
    if response.isSuccess then Done else Raised(FeatureFailure(response.error))
  }

  function SetIlluminationParams(state: bool): (p: seq<byte>)
    ensures |p| == 1 && IsBitSet(p[0], 0) == state
  {
    [if state then 0x01 else 0x00]
  }

  /** GetIllumination: bit 0 of payload byte 0. */
  function GetIlluminationResult(response: Report): (r: Result<bool>)
    ensures !response.isSuccess ==> r == Err(FeatureFailure(response.error))
    ensures response.isSuccess ==> (r.Ok? <==> response.At(0).Ok?)
    ensures r.Ok? ==> r.value == IsBitSet(response.At(0).value, 0)
  {
    if response.isSuccess then
      var b :- response.At(0);
      Ok(IsBitSet(b, 0))
    else Err(FeatureFailure(response.error))
  }

  /** A device that reports back the state byte it was given reports the state. */
  lemma IlluminationRoundTrip(state: bool, response: Report)
    requires response.isSuccess && response.At(0) == Ok(SetIlluminationParams(state)[0])
    ensures GetIlluminationResult(response) == Ok(state)
  {
  }

  /** SetBrightness and SetColorTemperature: `Pack((ushort)value)`. */
  function SetValueParams(value: int): (p: seq<byte>)
    ensures Ok(p) == PackOf([AUInt16(value % 0x1_0000)])
    ensures |p| == 2
  {
    assert [AUInt16(value % 0x1_0000)][..0] == [];
    assert PackOf([AUInt16(value % 0x1_0000)]) == Ok([] + LittleEndian(value % 0x1_0000, 2));
    assert [] + LittleEndian(value % 0x1_0000, 2) == LittleEndian(value % 0x1_0000, 2);
    LittleEndian(value % 0x1_0000, 2)
  }

  /** The parameter is written little-endian, so a device that reads it
      big-endian, as the library reads every 16-bit field, sees it with its
      bytes exchanged. */
  lemma SetValueByteOrder(value: int)
    ensures BigEndian(SetValueParams(value)) == Swap16(value % 0x1_0000)
  {
    ReadBackSwapped(value % 0x1_0000);
  }

  /** GetBrightness and GetColorTemperature: the 16-bit value at payload 0. */
  function GetValueResult(response: Report): (r: Result<nat>)
    ensures !response.isSuccess ==> r == Err(FeatureFailure(response.error))
    ensures response.isSuccess ==> r == response.ReadUInt16(0)
    ensures r.Ok? ==> r.value < 0x1_0000
  {
    if response.isSuccess then response.ReadUInt16(0) else Err(FeatureFailure(response.error))
  }

  /** GetBrightnessLevels and GetColorTemperatureLevels: `(byte)(startIndex << 4)`,
      the start index in the high nibble. */
  function GetLevelsParams(startIndex: int): (p: seq<byte>)
    ensures |p| == 1 && p[0] as int / 16 == startIndex % 16 && p[0] as int % 16 == 0
  {
    Low8Times16(startIndex);
    [Low8(startIndex * 16)]
  }

  // ---------------------------------------------------------------------------
  // Info

  datatype Info = Info(capabilities: byte, min: nat, max: nat, resolution: nat, maxLevels: nat)

  /** ReadInfoFromResponse: capabilities in payload byte 0, min, max and
      resolution big-endian at payload 1, 3 and 5, the maximum level count in
      the low nibble of payload byte 7. The reads happen in that order, so
      the first one out of range decides the exception. */
  function ReadInfo(response: Report): (r: Result<Info>)
    requires response.FeatureReport?
    ensures r.Ok? <==> |response.raw| >= 12
    ensures r.Err? ==> r.fault == if |response.raw| < 5 then IndexOutOfRange else ArgumentOutOfRange
    ensures r.Ok? ==> var raw := response.raw;
                      && r.value.capabilities == raw[4]
                      && r.value.min == BigEndian(raw[5..7]) && r.value.max == BigEndian(raw[7..9])
                      && r.value.resolution == BigEndian(raw[9..11])
                      && r.value.maxLevels == raw[11] as int % 16
  {
    var capabilities :- response.At(0);
    var min :- response.ReadUInt16(1);
    var max :- response.ReadUInt16(3);
    var resolution :- response.ReadUInt16(5);
    Nibbles(response.raw[11]);
    Ok(Info(capabilities, min, max, resolution, (response.raw[11] & 0x0F) as int))
  }

  predicate InfoFits(info: Info) {
    info.min < 0x1_0000 && info.max < 0x1_0000 && info.resolution < 0x1_0000 && info.maxLevels < 16
  }

  /** The payload a device sends for `info`: the fields in the same places,
      16-bit values most significant byte first. */
  function InfoPayload(info: Info): (p: seq<byte>)
    requires InfoFits(info)
    ensures |p| == 8
  {
    [info.capabilities, Low8(info.min / 256), Low8(info.min), Low8(info.max / 256), Low8(info.max),
     Low8(info.resolution / 256), Low8(info.resolution), Low8(info.maxLevels)]
  }

  lemma BigEndianOf16(v: nat)
    requires v < 0x1_0000
    ensures BigEndian([Low8(v / 256), Low8(v)]) == v
  {
    BigEndianPair(Low8(v / 256), Low8(v));
  }

  /** Decoding the payload of `info` gives `info` back. */
  lemma ReadInfoInverts(info: Info, response: Report)
    requires InfoFits(info)
    requires response.FeatureReport? && |response.raw| == 20 && response.raw[4..12] == InfoPayload(info)
    ensures ReadInfo(response) == Ok(info)
  {
    InfoPayloadFields(info, response.raw);
    ReadInfoFields(response);
  }

  lemma Low8Small(x: nat)
    requires x < 16
    ensures Low8(x) as int % 16 == x
  {
    assert Low8(x) as int == x;
  }

  lemma InfoPayloadFields(info: Info, raw: seq<byte>)
    requires InfoFits(info)
    requires |raw| == 20 && raw[4..12] == InfoPayload(info)
    ensures raw[4] == info.capabilities && raw[11] as int % 16 == info.maxLevels
    ensures BigEndian(raw[5..7]) == info.min && BigEndian(raw[7..9]) == info.max
    ensures BigEndian(raw[9..11]) == info.resolution
  {
    InfoEndBytes(info, raw);
    Low8Small(info.maxLevels);
    InfoField16At(info, raw, 1, info.min);
    InfoField16At(info, raw, 3, info.max);
    InfoField16At(info, raw, 5, info.resolution);
  }

  lemma InfoEndBytes(info: Info, raw: seq<byte>)
    requires InfoFits(info)
    requires |raw| == 20 && raw[4..12] == InfoPayload(info)
    ensures raw[4] == info.capabilities && raw[11] == Low8(info.maxLevels)
  {
    assert raw[4] == raw[4..12][0];
    assert raw[11] == raw[4..12][7];
  }

  lemma InfoField16At(info: Info, raw: seq<byte>, j: nat, v: nat)
    requires InfoFits(info)
    requires |raw| == 20 && raw[4..12] == InfoPayload(info)
    requires (j == 1 && v == info.min) || (j == 3 && v == info.max) || (j == 5 && v == info.resolution)
    ensures BigEndian(raw[4 + j .. 6 + j]) == v
  {
    Field16At(raw, InfoPayload(info), j, v);
  }

  /** A 16-bit field written most significant byte first reads back whole. */
  lemma Field16At(raw: seq<byte>, p: seq<byte>, j: nat, v: nat)
    requires |p| == 8 && |raw| == 20 && raw[4..12] == p && j + 2 <= 8 && v < 0x1_0000
    requires p[j] == Low8(v / 256) && p[j + 1] == Low8(v)
    ensures BigEndian(raw[4 + j .. 6 + j]) == v
  {
    SliceOf(raw, p, 4, j, 2);
    assert p[j .. j + 2] == [Low8(v / 256), Low8(v)];
    BigEndianOf16(v);
  }

  /** ReadInfo succeeds on a 20-byte frame and takes its fields from these bytes. */
  lemma ReadInfoFields(response: Report)
    requires response.FeatureReport? && |response.raw| == 20
    ensures ReadInfo(response)
            == Ok(Info(response.raw[4], BigEndian(response.raw[5..7]), BigEndian(response.raw[7..9]),
                       BigEndian(response.raw[9..11]), response.raw[11] as int % 16))
  {
  }

  /** GetBrightnessInfo and GetColorTemperatureInfo. */
  function GetInfoResult(response: Report): (r: Result<Info>)
    requires response.FeatureReport?
    ensures !response.isSuccess ==> r == Err(FeatureFailure(response.error))
    ensures response.isSuccess ==> r == ReadInfo(response)
    ensures r.Ok? ==> InfoFits(r.value)
  {
    if response.isSuccess then
      var info :- ReadInfo(response);
      BigEndianBound(response.raw[5..7]);
      BigEndianBound(response.raw[7..9]);
      BigEndianBound(response.raw[9..11]);
      Ok(info)
    else Err(FeatureFailure(response.error))
  }

  // ---------------------------------------------------------------------------
  // Levels

  datatype Levels =
    | Linear(isLinear: bool, isReset: bool, startIndex: int, minLevel: int, maxLevel: int, step: int)
    | NonLinear(isLinear: bool, isReset: bool, startIndex: int, count: int, levelCount: int, values: seq<int>)

  /** `new LinearLevels()`. */
  function NewLinearLevels(): (l: Levels)
    ensures l.Linear? && l.isLinear && !l.isReset
    ensures l.startIndex == 0 && l.minLevel == 0 && l.maxLevel == 0 && l.step == 0
  {
    Linear(true, false, 0, 0, 0, 0)
  }

  /** `new NonLinearLevels(values)`: between 1 and 7 values. */
  function NewNonLinearLevels(values: seq<int>): (r: Result<Levels>)
    ensures r.Ok? <==> 1 <= |values| <= 7
    ensures r.Err? ==> r.fault == ArgumentOutOfRange
    ensures r.Ok? ==> && r.value.NonLinear? && !r.value.isLinear && !r.value.isReset
                      && r.value.values == values && r.value.count == |values|
                      && r.value.startIndex == 0 && r.value.levelCount == 0
  {
    if |values| > 7 then Err(ArgumentOutOfRange)
    else if |values| < 1 then Err(ArgumentOutOfRange)
    else Ok(NonLinear(false, false, 0, |values|, 0, values))
  }

  /** `new LinearLevels(response)`: the common header (linear flag in bit 0 of
      payload byte 0, start index in the high nibble of payload byte 1), then
      min, max and step big-endian at payload 2, 4 and 6. */
  function LinearFromResponse(response: Report): (r: Result<Levels>)
    requires response.FeatureReport?
    ensures r.Ok? <==> |response.raw| >= 13
    ensures r.Err? ==> r.fault == if |response.raw| < 6 then IndexOutOfRange else ArgumentOutOfRange
    ensures r.Ok? ==> var raw := response.raw;
                      && r.value.Linear? && !r.value.isReset
                      && r.value.isLinear == IsBitSet(raw[4], 0)
                      && r.value.startIndex == raw[5] as int / 16
                      && r.value.minLevel == BigEndian(raw[6..8]) && r.value.maxLevel == BigEndian(raw[8..10])
                      && r.value.step == BigEndian(raw[10..12])
  {
    var b0 :- response.At(0);
    var b1 :- response.At(1);
    var minLevel :- response.ReadUInt16(2);
    var maxLevel :- response.ReadUInt16(4);
    var step :- response.ReadUInt16(6);
    Nibbles(b1);
    Ok(Linear(IsBitSet(b0, 0), false, ((b1 & 0xF0) >> 4) as int, minLevel, maxLevel, step))
  }

  /** The values the non-linear constructor's loop reads: `count` 16-bit
      values at payload 2, 4, ...; the first one out of range throws. */
  function ReadValues(response: Report, count: nat): (r: Result<seq<int>>)
    requires response.FeatureReport?
    ensures r.Ok? <==> count == 0 || 2 * count + 6 < |response.raw|
    ensures r.Err? ==> r.fault == ArgumentOutOfRange
    ensures r.Ok? ==> |r.value| == count
    ensures r.Ok? ==> forall i :: 0 <= i < count ==> r.value[i] == BigEndian(response.raw[6 + 2 * i .. 8 + 2 * i])
  {
    if count == 0 then Ok([])
    else
      match ReadValues(response, count - 1)
      case Err(f) => Err(f)
      case Ok(front) =>
        if !response.DataFits(2 * count, 2) then Err(ArgumentOutOfRange)
        else
          var v := response.ReadUInt16(2 * count).value;
          var values := front + [v];
          assert values[..count - 1] == front;
          Ok(values)
  }

  /** A readable value at index i extends the i values before it. */
  lemma ReadValuesStep(response: Report, i: nat)
    requires response.FeatureReport?
    requires ReadValues(response, i).Ok? && response.ReadUInt16(2 + i * 2).Ok?
    ensures ReadValues(response, i + 1) == Ok(ReadValues(response, i).value + [response.ReadUInt16(2 + i * 2).value])
  {
  }

  /** An unreadable value at index i makes every read of more than i values fail with its fault. */
  lemma ReadValuesStopAtFailure(response: Report, i: nat, n: nat)
    requires response.FeatureReport? && i < n
    requires response.ReadUInt16(2 + i * 2).Err?
    ensures ReadValues(response, n) == Err(response.ReadUInt16(2 + i * 2).fault)
  {
  }

  /** The count as the non-linear constructor computes it, `[0] & (0xE0 >> 5)`:
      the shift applies to the mask, so this is the low three bits. */
  function CountAsWritten(b0: byte): (c: nat)
    ensures c < 8 && c == b0 as int % 8
  {
    (b0 & (0xE0 >> 5)) as int
  }

  /** The count as intended, `([0] & 0xE0) >> 5`: the top three bits, where
      the non-linear Pack puts it. */
  function Count(b0: byte): (c: nat)
    ensures c < 8 && c == b0 as int / 32
  {
    ((b0 & 0xE0) >> 5) as int
  }

  /** The non-linear level fields once the count is known. */
  function NonLinearWith(response: Report, b0: byte, b1: byte, count: nat): (r: Result<Levels>)
    requires response.FeatureReport?
    ensures r == (match ReadValues(response, count)
                  case Ok(values) => Ok(NonLinear(IsBitSet(b0, 0), false, b1 as int / 16, count, b1 as int % 16, values))
                  case Err(f) => Err(f))
  {
    var values :- ReadValues(response, count);
    Nibbles(b1);
    Ok(NonLinear(IsBitSet(b0, 0), false, ((b1 & 0xF0) >> 4) as int, count, (b1 & 0x0F) as int, values))
  }

  /** `new NonLinearLevels(response)` as written. */
  function NonLinearFromResponseAsWritten(response: Report): (r: Result<Levels>)
    requires response.FeatureReport?
    ensures |response.raw| >= 6 ==> r == NonLinearWith(response, response.raw[4], response.raw[5], CountAsWritten(response.raw[4]))
    ensures |response.raw| < 6 ==> r == Err(IndexOutOfRange)
  {
    var b0 :- response.At(0);
    var b1 :- response.At(1);
    NonLinearWith(response, b0, b1, CountAsWritten(b0))
  }

  /** `new NonLinearLevels(response)` with the intended count. */
  function NonLinearFromResponse(response: Report): (r: Result<Levels>)
    requires response.FeatureReport?
    ensures |response.raw| >= 6 ==> r == NonLinearWith(response, response.raw[4], response.raw[5], Count(response.raw[4]))
    ensures |response.raw| < 6 ==> r == Err(IndexOutOfRange)
    ensures r.Ok? ==> r.value.NonLinear? && r.value.count == |r.value.values| < 8
  {
    var b0 :- response.At(0);
    var b1 :- response.At(1);
    NonLinearWith(response, b0, b1, Count(b0))
  }

  /** With a frame's last two bytes unreadable, a 20-byte frame holds at most
      six non-linear values: a count of 7 throws. */
  lemma SevenValuesUnreadable(response: Report)
    requires response.FeatureReport? && |response.raw| == 20 && Count(response.raw[4]) == 7
    ensures NonLinearFromResponse(response) == Err(ArgumentOutOfRange)
  {
  }

  /** The non-linear constructor as written, with its loop filling
      `new int[Count]` where Count is `[0] & (0xE0 >> 5)`. */
  method NonLinearLevelsFromResponse(response: Report) returns (r: Result<Levels>)
    requires response.FeatureReport?
    ensures r == NonLinearFromResponseAsWritten(response)
  {
    var b0 :- response.At(0);
    var b1 :- response.At(1);
    var count := CountAsWritten(b0);
    var values :- FillValues(response, count);
    Nibbles(b1);
    NonLinearFromFrame(response, values);
    r := Ok(NonLinear(IsBitSet(b0, 0), false, ((b1 & 0xF0) >> 4) as int, count, (b1 & 0x0F) as int, values));
  }

  /** The constructor's loop: `new int[count]`, filled with the 16-bit values
      at payload 2, 4, ...; the first read out of range throws. */
  method FillValues(response: Report, count: nat) returns (r: Result<seq<int>>)
    requires response.FeatureReport?
    ensures r == ReadValues(response, count)
  {
    var values := new int[count];
    var ii := 0;
    while ii < count
      invariant 0 <= ii <= count
      invariant ReadValues(response, ii) == Ok(values[..ii])
    {
      var v := response.ReadUInt16(2 + ii * 2);
      if v.Err? {
        ReadValuesStopAtFailure(response, ii, count);
        return Err(v.fault);
      }
      ghost var before := values[..ii];
      ReadValuesStep(response, ii);
      values[ii] := v.value;
      assert values[..ii + 1] == before + [v.value];
      ii := ii + 1;
    }
    assert values[..] == values[..count];
    return Ok(values[..]);
  }

  /** The non-linear decoding as written once the values have been read. */
  lemma NonLinearFromFrame(response: Report, values: seq<int>)
    requires response.FeatureReport? && |response.raw| >= 6
    requires ReadValues(response, CountAsWritten(response.raw[4])) == Ok(values)
    ensures var raw := response.raw;
            NonLinearFromResponseAsWritten(response)
            == Ok(NonLinear(IsBitSet(raw[4], 0), false, raw[5] as int / 16, CountAsWritten(raw[4]), raw[5] as int % 16, values))
  {
  }

  /** ReadLevelsFromResponse as written: both branches build linear levels. */
  function ReadLevelsAsWritten(response: Report): (r: Result<Levels>)
    requires response.FeatureReport?
    ensures |response.raw| < 5 ==> r == Err(IndexOutOfRange)
    ensures |response.raw| >= 5 ==> r == LinearFromResponse(response)
    ensures r.Ok? ==> r.value.Linear?
  {
    var b0 :- response.At(0);
    if IsBitSet(b0, 0) then LinearFromResponse(response) else LinearFromResponse(response)
  }

  /** Counterexample: a non-linear level table comes back as linear levels
      whose linear flag is clear. */
  lemma NonLinearTableReadAsLinear(response: Report)
    requires response.FeatureReport? && |response.raw| >= 13 && !IsBitSet(response.raw[4], 0)
    ensures ReadLevelsAsWritten(response).Ok?
    ensures ReadLevelsAsWritten(response).value.Linear? && !ReadLevelsAsWritten(response).value.isLinear
  {
  }

  /** ReadLevelsFromResponse as intended: the linear flag picks the form. */
  function ReadLevels(response: Report): (r: Result<Levels>)
    requires response.FeatureReport?
    ensures |response.raw| < 5 ==> r == Err(IndexOutOfRange)
    ensures |response.raw| >= 5 && IsBitSet(response.raw[4], 0) ==> r == LinearFromResponse(response)
    ensures |response.raw| >= 5 && !IsBitSet(response.raw[4], 0) ==> r == NonLinearFromResponse(response)
  {
    var b0 :- response.At(0);
    if IsBitSet(b0, 0) then LinearFromResponse(response) else NonLinearFromResponse(response)
  }

  /** The levels read back carry the form their flag names. */
  lemma ReadLevelsConsistent(response: Report)
    requires response.FeatureReport?
    ensures ReadLevels(response).Ok? ==> (ReadLevels(response).value.Linear? <==> ReadLevels(response).value.isLinear)
  {
  }

  /** GetBrightnessLevels and GetColorTemperatureLevels: a successful
      response goes through ReadLevelsFromResponse as written, so whatever
      the device answers comes back as linear levels. */
  function GetLevelsResult(response: Report): (r: Result<Levels>)
    requires response.FeatureReport?
    ensures !response.isSuccess ==> r == Err(FeatureFailure(response.error))
    ensures response.isSuccess && |response.raw| < 5 ==> r == Err(IndexOutOfRange)
    ensures response.isSuccess && |response.raw| >= 5 ==> r == LinearFromResponse(response)
    ensures r.Ok? ==> r.value.Linear?
  {
    if response.isSuccess then ReadLevelsAsWritten(response) else Err(FeatureFailure(response.error))
  }

  // ---------------------------------------------------------------------------
  // Pack

  function LinearPackArgs(l: Levels): seq<Primitive>
    requires l.Linear?
  {
    [AByte(if l.isReset then 0x03 else 0x01), AByte(Low8(l.startIndex * 16)),
     AUInt16(l.minLevel % 0x1_0000), AUInt16(l.maxLevel % 0x1_0000), AUInt16(l.step % 0x1_0000)]
  }

  /** LinearLevels.Pack: flags byte (bit 0 linear, bit 1 reset), start index
      in the high nibble, then min, max and step as 16-bit values. */
  function LinearPack(l: Levels): (p: seq<byte>)
    requires l.Linear?
    ensures Ok(p) == PackOf(LinearPackArgs(l))
    ensures |p| == 8
  {
    var a := LinearPackArgs(l);
    var b0: byte := if l.isReset then 0x03 else 0x01;
    var b1 := Low8(l.startIndex * 16);
    var mn := LittleEndian(l.minLevel % 0x1_0000, 2);
    var mx := LittleEndian(l.maxLevel % 0x1_0000, 2);
    var st := LittleEndian(l.step % 0x1_0000, 2);
    assert PackOf(a[..1]) == Ok([b0]) by {
      assert a[0] == AByte(b0) && Encode(a[0]) == Ok([b0]);
      PackOfSnoc([], a[0]);
      assert [] + [a[0]] == a[..1];
      assert [] + [b0] == [b0];
    }
    assert PackOf(a[..2]) == Ok([b0, b1]) by {
      assert a[1] == AByte(b1) && Encode(a[1]) == Ok([b1]);
      PackOfSnoc(a[..1], a[1]);
      assert a[..1] + [a[1]] == a[..2];
      assert [b0] + [b1] == [b0, b1];
    }
    assert PackOf(a[..3]) == Ok([b0, b1] + mn) by {
      PackOfSnoc(a[..2], a[2]);
      assert a[..2] + [a[2]] == a[..3];
    }
    assert PackOf(a[..4]) == Ok([b0, b1] + mn + mx) by {
      PackOfSnoc(a[..3], a[3]);
      assert a[..3] + [a[3]] == a[..4];
    }
    assert PackOf(a) == Ok([b0, b1] + mn + mx + st) by {
      PackOfSnoc(a[..4], a[4]);
      assert a[..4] + [a[4]] == a;
    }
    [b0, b1] + mn + mx + st
  }

  /** Reading packed linear levels back: the table is linear, not a reset,
      and keeps its start index modulo 16; the three 16-bit values were
      written little-endian and are read big-endian, so each comes back with
      its bytes exchanged. */
  lemma LinearPackReadBack(l: Levels, response: Report)
    requires l.Linear?
    requires response.FeatureReport? && |response.raw| == 20 && response.raw[4..12] == LinearPack(l)
    ensures LinearFromResponse(response)
            == Ok(Linear(true, false, l.startIndex % 16, Swap16(l.minLevel % 0x1_0000),
                         Swap16(l.maxLevel % 0x1_0000), Swap16(l.step % 0x1_0000)))
  {
    LinearPackBytes(l);
    LinearReadBackOf(response, LinearPack(l), l.startIndex, l.minLevel % 0x1_0000, l.maxLevel % 0x1_0000,
                     l.step % 0x1_0000);
  }

  lemma LinearReadBackOf(response: Report, p: seq<byte>, startIndex: int, mn: nat, mx: nat, st: nat)
    requires response.FeatureReport? && |response.raw| == 20 && |p| == 8 && response.raw[4..12] == p
    requires IsBitSet(p[0], 0) && p[1] == Low8(startIndex * 16)
    requires p[2..4] == LittleEndian(mn, 2) && p[4..6] == LittleEndian(mx, 2) && p[6..8] == LittleEndian(st, 2)
    ensures LinearFromResponse(response) == Ok(Linear(true, false, startIndex % 16, Swap16(mn), Swap16(mx), Swap16(st)))
  {
    var raw := response.raw;
    LinearFromFrame(response);
    assert raw[4] == p[0] && raw[5] == p[1];
    SwappedAt(raw, p, 2, mn);
    SwappedAt(raw, p, 4, mx);
    SwappedAt(raw, p, 6, st);
    Low8Times16(startIndex);
  }

  /** The linear constructor succeeds on a 20-byte frame and takes its fields from these bytes. */
  lemma LinearFromFrame(response: Report)
    requires response.FeatureReport? && |response.raw| == 20
    ensures var raw := response.raw;
            LinearFromResponse(response)
            == Ok(Linear(IsBitSet(raw[4], 0), false, raw[5] as int / 16, BigEndian(raw[6..8]),
                         BigEndian(raw[8..10]), BigEndian(raw[10..12])))
  {
  }

  /** Where LinearPack puts each field. */
  lemma LinearPackBytes(l: Levels)
    requires l.Linear?
    ensures var p := LinearPack(l);
            && p[0] == (if l.isReset then 0x03 else 0x01) && p[1] == Low8(l.startIndex * 16)
            && p[2..4] == LittleEndian(l.minLevel % 0x1_0000, 2)
            && p[4..6] == LittleEndian(l.maxLevel % 0x1_0000, 2)
            && p[6..8] == LittleEndian(l.step % 0x1_0000, 2)
            && IsBitSet(p[0], 0)
  {
  }

  /** A 16-bit field written little-endian into the payload reads back swapped. */
  lemma SwappedAt(raw: seq<byte>, p: seq<byte>, j: nat, v: nat)
    requires |p| == 8 && |raw| == 20 && raw[4..12] == p && j + 2 <= 8
    requires p[j .. j + 2] == LittleEndian(v, 2)
    ensures BigEndian(raw[4 + j .. 6 + j]) == Swap16(v)
  {
    SliceOf(raw, p, 4, j, 2);
    ReadBackSwapped(v);
  }

  /** The level values as BitConverter writes them, two bytes each. */
  function ValuesData(values: seq<int>): (d: seq<byte>)
    ensures |d| == 2 * |values|
  {
    if values == [] then [] else LittleEndian(values[0] % 0x1_0000, 2) + ValuesData(values[1..])
  }

  lemma {:induction false} ValuesDataAt(values: seq<int>, i: nat)
    requires i < |values|
    ensures ValuesData(values)[2 * i .. 2 * i + 2] == LittleEndian(values[i] % 0x1_0000, 2)
  {
    if i > 0 {
      ValuesDataAt(values[1..], i - 1);
      var d := ValuesData(values);
      var head := LittleEndian(values[0] % 0x1_0000, 2);
      assert d == head + ValuesData(values[1..]);
      assert d[2 * i .. 2 * i + 2] == ValuesData(values[1..])[2 * (i - 1) .. 2 * (i - 1) + 2];
    }
  }

  /** Flags byte of NonLinearLevels.Pack as written: `(Count & 0x06) << 5`
      drops bit 0 of the count. */
  function HeaderByte0AsWritten(count: int, isReset: bool): byte {
    ((Low8(count) & 0x06) << 5) | (if isReset then 0x02 else 0x00)
  }

  /** Counterexample: an odd count is sent as the even count below it. */
  lemma OddCountDropped(count: int, isReset: bool)
    requires 0 <= count <= 7
    ensures Count(HeaderByte0AsWritten(count, isReset)) == count - count % 2
    ensures Count(HeaderByte0AsWritten(1, isReset)) == 0
  {
    Low8Exact(count);
    ByteArith.ByteOfSmall(count);
    HeaderCountAsWritten(count as byte, isReset);
    Low8Exact(1);
    HeaderCountAsWritten(1, isReset);
  }

  lemma HeaderCountAsWritten(c: byte, isReset: bool)
    requires c as int < 8
    ensures var h := ((c & 0x06) << 5) | (if isReset then 0x02 else 0x00);
            ((h & 0xE0) >> 5) as int == c as int - c as int % 2
  {
  }

  /** Flags byte as intended: the three count bits in bits 5 to 7, reset in
      bit 1, bit 0 (linear) clear. */
  function HeaderByte0(count: int, isReset: bool): byte {
    ((Low8(count) & 0x07) << 5) | (if isReset then 0x02 else 0x00)
  }

  lemma HeaderBits(c: byte, isReset: bool)
    requires c as int < 8
    ensures c & 0x07 == c
    ensures var h := (c << 5) | (if isReset then 0x02 else 0x00);
            && ((h & 0xE0) >> 5) == c && h & 0x01 == 0 && (h & 0x02 != 0) == isReset
            && h & 0x07 == (if isReset then 0x02 else 0x00)
  {
  }

  /** The intended flags byte decodes, with the intended count, to the count
      it packs, says "not linear" and carries the reset flag. The count as
      the constructor computes it sees only the reset flag. */
  lemma HeaderByte0RoundTrip(count: int, isReset: bool)
    requires 0 <= count <= 7
    ensures Count(HeaderByte0(count, isReset)) == count
    ensures !IsBitSet(HeaderByte0(count, isReset), 0)
    ensures IsBitSet(HeaderByte0(count, isReset), 1) == isReset
    ensures CountAsWritten(HeaderByte0(count, isReset)) == if isReset then 2 else 0
  {
    Low8Exact(count);
    ByteArith.ByteOfSmall(count);
    HeaderBits(count as byte, isReset);
  }

  /** Counterexample for the constructor's count: a flags byte of 0x20
      announces one value, and is read as none. */
  lemma OneValueReadAsNone()
    ensures Count(0x20) == 1 && CountAsWritten(0x20) == 0
  {
  }

  /** Second byte of NonLinearLevels.Pack: start index high, level count low. */
  function HeaderByte1(startIndex: int, levelCount: int): (b: byte)
    ensures b as int / 16 == startIndex % 16 && b as int % 16 == levelCount % 16
  {
    var hi := Low8(startIndex) & 0x0F;
    var lo := Low8(levelCount) & 0x0F;
    LowNibbleOf(startIndex);
    LowNibbleOf(levelCount);
    JoinNibbles(hi, lo);
    (hi << 4) | lo
  }

  /** NonLinearLevels.Pack as written: each header byte is an `int` (two
      `(byte)` casts joined by `|`), and Pack unboxes a boxed `int` as
      `uint`, which throws. */
  function NonLinearPackAsWritten(l: Levels): Result<seq<byte>>
    requires l.NonLinear?
  {
    PackOf([AInt32(HeaderByte0AsWritten(l.count, l.isReset) as int),
            AInt32(HeaderByte1(l.startIndex, l.levelCount) as int),
            AByteArray(ValuesData(l.values))])
  }

  /** Counterexample for every table: non-linear levels can never be sent. */
  lemma NonLinearPackAlwaysThrows(l: Levels)
    requires l.NonLinear?
    ensures NonLinearPackAsWritten(l) == Err(InvalidCast)
  {
    var ps := [AInt32(HeaderByte0AsWritten(l.count, l.isReset) as int),
               AInt32(HeaderByte1(l.startIndex, l.levelCount) as int),
               AByteArray(ValuesData(l.values))];
    assert ps[..1] == [ps[0]];
    assert [ps[0]][..0] == [];
    assert PackOf(ps[..1]) == Err(InvalidCast);
    PackStopsAtFailure(ps, 1);
  }

  function NonLinearPackArgs(l: Levels): seq<Primitive>
    requires l.NonLinear?
  {
    [AByte(HeaderByte0(l.count, l.isReset)), AByte(HeaderByte1(l.startIndex, l.levelCount)),
     AByteArray(ValuesData(l.values))]
  }

  /** NonLinearLevels.Pack as intended: the header bytes passed as bytes,
      the count masked with 0x07. */
  function NonLinearPack(l: Levels): (p: seq<byte>)
    requires l.NonLinear?
    ensures Ok(p) == PackOf(NonLinearPackArgs(l))
    ensures |p| == 2 + 2 * |l.values|
  {
    var a := NonLinearPackArgs(l);
    var h0 := HeaderByte0(l.count, l.isReset);
    var h1 := HeaderByte1(l.startIndex, l.levelCount);
    assert PackOf(a[..1]) == Ok([h0]) by {
      assert a[0] == AByte(h0) && Encode(a[0]) == Ok([h0]);
      PackOfSnoc([], a[0]);
      assert [] + [a[0]] == a[..1];
      assert [] + [h0] == [h0];
    }
    assert PackOf(a[..2]) == Ok([h0, h1]) by {
      assert a[1] == AByte(h1) && Encode(a[1]) == Ok([h1]);
      PackOfSnoc(a[..1], a[1]);
      assert a[..1] + [a[1]] == a[..2];
      assert [h0] + [h1] == [h0, h1];
    }
    assert PackOf(a) == Ok([h0, h1] + ValuesData(l.values)) by {
      PackOfSnoc(a[..2], a[2]);
      assert a[..2] + [a[2]] == a;
    }
    [HeaderByte0(l.count, l.isReset), HeaderByte1(l.startIndex, l.levelCount)] + ValuesData(l.values)
  }

  /** The level values a big-endian reader sees in ValuesData. */
  function SwappedValues(values: seq<int>): (s: seq<int>)
    ensures |s| == |values|
    ensures forall i :: 0 <= i < |values| ==> s[i] == Swap16(values[i] % 0x1_0000)
  {
    seq(|values|, i requires 0 <= i < |values| => Swap16(values[i] % 0x1_0000))
  }

  /** The values part of a packed table, read back by the constructor's loop. */
  lemma ReadValuesOfPack(l: Levels, response: Report)
    requires l.NonLinear? && 0 <= l.count == |l.values| <= 6
    requires response.FeatureReport? && |response.raw| == 20
    requires response.raw[4..6 + 2 * |l.values|] == NonLinearPack(l)
    ensures ReadValues(response, l.count) == Ok(SwappedValues(l.values))
  {
    var r := ReadValues(response, l.count);
    assert r.Ok? && |r.value| == l.count;
    var vs := r.value;
    var sw := SwappedValues(l.values);
    forall i | 0 <= i < |vs|
      ensures vs[i] == sw[i]
    {
      PackedValueAt(l, response, i);
    }
    assert vs == sw;
  }

  /** Value `i` of a packed table sits at payload 2 + 2i, little-endian. */
  lemma PackedValueAt(l: Levels, response: Report, i: nat)
    requires l.NonLinear? && i < |l.values| <= 7
    requires response.FeatureReport? && |response.raw| == 20
    requires response.raw[4..6 + 2 * |l.values|] == NonLinearPack(l)
    ensures BigEndian(response.raw[6 + 2 * i .. 8 + 2 * i]) == Swap16(l.values[i] % 0x1_0000)
  {
    var p := NonLinearPack(l);
    var d := ValuesData(l.values);
    SliceOf(response.raw, p, 4, 2 + 2 * i, 2);
    assert p[2 + 2 * i .. 4 + 2 * i] == d[2 * i .. 2 * i + 2] by {
      assert p == [p[0], p[1]] + d;
      SliceOf(p, d, 2, 2 * i, 2);
    }
    ValuesDataAt(l.values, i);
    ReadBackSwapped(l.values[i] % 0x1_0000);
  }

  /** Reading a packed non-linear table back, with the intended count: the
      table is read as non-linear, not a reset, with its start index and
      level count modulo 16, its count, and its values with their bytes
      exchanged. A table of 7 values does not fit the readable part of a
      frame. */
  lemma NonLinearPackReadBack(l: Levels, response: Report)
    requires l.NonLinear? && 1 <= l.count == |l.values| <= 7
    requires response.FeatureReport? && |response.raw| == 20
    requires response.raw[4..6 + 2 * |l.values|] == NonLinearPack(l)
    ensures l.count <= 6 ==>
              ReadLevels(response)
              == Ok(NonLinear(false, false, l.startIndex % 16, l.count, l.levelCount % 16, SwappedValues(l.values)))
    ensures l.count == 7 ==> ReadLevels(response) == Err(ArgumentOutOfRange)
  {
    var raw := response.raw;
    var p := NonLinearPack(l);
    assert raw[4] == p[0] && raw[5] == p[1];
    HeaderByte0RoundTrip(l.count, l.isReset);
    if l.count <= 6 {
      ReadValuesOfPack(l, response);
    }
  }

  /** SetBrightnessLevels and SetColorTemperatureLevels: the table's Pack as
      written, which succeeds for linear levels and throws InvalidCast for
      every non-linear table before anything is sent. */
  function SetLevelsParams(l: Levels): (p: Result<seq<byte>>)
    ensures l.Linear? ==> p == Ok(LinearPack(l))
    ensures l.NonLinear? ==> p == Err(InvalidCast)
  {
    match l
    case Linear(_, _, _, _, _, _) => PackOf(LinearPackArgs(l))
    case NonLinear(_, _, _, _, _, _) => NonLinearPackAlwaysThrows(l); NonLinearPackAsWritten(l)
  }
}
