# HidPpSharp protocol engine in Dafny

HidPpSharp is a C# library that talks Logitech's HID++ vendor protocol over
HID reports: HID++ 1.0 registers, HID++ 2.0 features and the short-range
("DJ") reports of a Unifying receiver. This project models the library's
protocol engine and proves properties of it:

- the report codec: the frame-length table, variant selection, success and
  error-code decoding, and the bounds-checked big-endian field readers
  (`reports.dfy`);
- the input receiver: a growable byte buffer with offset and count, append on
  read, extraction of one frame, resynchronisation on an unknown leading byte,
  and the running flag (`input_receiver.dfy`, a class over an `array<byte>`);
- the request builders and correlation rules of feature calls and register
  calls: the header, the short (0x10) or long (0x11) choice, zero padding, the
  function/software-id nibbles, the match predicate and the synthetic timeout
  report (`abstract_feature.dfy`, `abstract_register.dfy`, with the wait in
  `wait.dfy`);
- the feature catalog: discovery through Root and FeatureSet into an ordered
  list, and the lookups over it (`feature_catalog.dfy`, `root_feature.dfy`,
  `feature_set.dfy`, `hidpp20_features.dfy`);
- the byte helpers (`byte_utils.dfy`), the protocol-version flags
  (`protocol_version.dfy`), the flag packing of the Notification (0x00) and
  IndividualFeatures (0x01) registers (`notification.dfy`,
  `individual_features.dfy`) and the level tables of the Illumination feature
  0x1990 (`illumination.dfy`).

`common.dfy` holds the shared types: `byte` is `bv8`, `uint16`/`uint32`/`uint64`
are ranges of `int`, and every exception the library throws is a `Fault` value
inside `Result<T>` (`Ok`/`Err`) or `Status` (`Done`/`Raised`).

C# semantics that the model writes out:

- `(byte)x` keeps the low eight bits (`ByteUtils.Low8`); `1 << bit` masks the
  shift count to five bits (`ByteUtils.ShiftCount`).
- Unboxing a boxed `short`, `int` or `long` as `ushort`, `uint` or `ulong`
  throws `InvalidCastException`, so `Pack` refuses the signed branches it
  appears to accept (ByteUtils.cs:21-26).
- `BitConverter` runs little-endian: `Pack` writes 16-bit values low byte
  first, while every reader of a report is big-endian. A value sent through
  `Pack` and read back by `ReadUInt16` comes back byte-swapped
  (`RootFeature.GetFeatureParamsByteOrder`, `Illumination.SetValueByteOrder`,
  `Illumination.LinearPackReadBack`).
- `CheckDataSize` is strict (`RawData.Length <= HeaderSize + offset + count`
  throws), so the last byte of a frame can never be read by `ReadX`
  (`Reports.ReadersRefuseLastBytes`). Seven non-linear level values do not fit
  a 20-byte frame for that reason (`Illumination.SevenValuesUnreadable`).
- `ReadNumber` and `ReadBit` add 4 to the offset whatever the header size, so
  on a DJ report (header size 2) they read two bytes further on.
- A 0x11 frame whose third byte is at least 0x80 parses as a register report,
  including a feature error frame with the 0xFF marker
  (`Reports.FeatureErrorFrameIsRegisterReport`).
- Root's GetFeature stores `response[0] + 1` as the index it returns
  (x0000-Root.cs:17), and a timed-out GetProtocolVersion throws an index error
  instead of a feature error, because the timeout report has no third payload
  byte (`RootFeature.ProtocolVersionTimeout`).
- SetReceiver and SetDevice write the same register and each zeroes the other's
  bytes.

Two rules the source states for itself are not what its code does (see
"## Findings"). The exception AbstractFeature's constructor throws says a
feature "is not supported or feature set is not loaded"
(AbstractFeature.cs:20-21), but it is thrown only when the caller passes -1 as
the index (line 19), never when the lookup fails, so an unknown feature is bound
to index 0xFF. Feature calls pick the short frame exactly when header and
parameters fit in seven bytes (AbstractFeature.cs:41), while register calls
compare only the parameter count with seven (AbstractRegister.cs:42). The
operations that build, send or decode frames (`RequestRegister`,
`AccessRegister`, `GetLevelsResult`, `SetLevelsParams`,
`NonLinearLevelsFromResponse`, `BindFeatureAsWritten`) follow the code as
written. Each finding also has a corrected member with the intended property
proved about it. Discovery binds FeatureSet through the corrected `BindFeature`,
which `BindFeatureAgreement` shows gives the as-written binding whenever the
feature is in the catalog, as FeatureSet always is there.

## Model

| member | source | states |
|---|---|---|
| Reports.GetSizeTable | HidPpSharp/src/HidPpReport.cs:88-100 | the frame length is 7, 20, 15, 32 for 0x10, 0x11, 0x20, 0x21 and 0 for every other first byte; every known length is at least 7 |
| Reports.Report.Id | HidPpSharp/src/HidPpReport.cs:20-22 | the report id is the first raw byte; TryParseKnownIds states which ids give which report kind |
| Reports.Report.Size | HidPpSharp/src/HidPpReport.cs:11-18 | the size is GetSize of the first raw byte, whose table GetSizeTable states |
| Reports.Report.DeviceIndex | HidPpSharp/src/HidPpReport.cs:24-26 | the device index is the second raw byte; FeatureMatchesKey and RegisterMatches compare it with the request's |
| Reports.Report.ReadUInt16 | HidPpSharp/src/HidPpReport.cs:47-51 | succeeds exactly when CheckDataSize lets `HeaderSize+offset+2 < RawData.Length` through and the index is not negative; the value is the big-endian pair at `HeaderSize+offset`, below 0x10000 |
| Reports.Report.ReadInt16 | HidPpSharp/src/HidPpReport.cs:41-45 | fails exactly when ReadUInt16 does; the value is that pair as a signed 16-bit number |
| Reports.Report.ReadUInt32 | HidPpSharp/src/HidPpReport.cs:62-69 | succeeds exactly when `HeaderSize+offset+4 < RawData.Length` and the index is not negative; the value is the four bytes big-endian, below 2^32 |
| Reports.Report.ReadInt32 | HidPpSharp/src/HidPpReport.cs:53-60 | fails exactly when ReadUInt32 does; the value is that quad as a signed 32-bit number |
| Reports.ReadBitAt | HidPpSharp/src/HidPpReport.cs:82-86 | for a feature or register report ReadBit succeeds exactly when the data-size check passes, and returns bit `bit` of `raw[4+offset]` |
| Reports.Report.FunctionId | HidPpSharp/src/HidPp20/FeatureReport.cs:34-36 | the function id is the high nibble of byte 3, below 16 |
| Reports.Report.SoftwareId | HidPpSharp/src/HidPp20/FeatureReport.cs:38-40 | the software id is the low nibble of byte 3, below 16 |
| Reports.NibblesRecombine | HidPpSharp/src/HidPp20/FeatureReport.cs:34-40 | FunctionId shifted left by 4 and OR-ed with SoftwareId gives back byte 3 |
| Reports.Report.FeatureIndex | HidPpSharp/src/HidPp20/FeatureReport.cs:30-32 | the feature index is raw byte 2; FeatureMatchesKey shows an echo of the request is matched on it |
| Reports.DataAgreesWithIndexer | HidPpSharp/src/HidPpReport.cs:33-39 | Data has `RawData.Length - HeaderSize` bytes, `Data[i] == this[i] == raw[HeaderSize+i]`, and the indexer fails outside Data |
| Reports.FeatureError | HidPpSharp/src/HidPp20/FeatureReport.cs:12-26 | the feature error decoding is total: every code outside the listed ones decodes to Unknown |
| Reports.FeatureErrorRoundTrip | HidPpSharp/src/HidPp20/FeatureReport.cs:12-26 | decoding inverts the code table: a kind with a code decodes back to itself, and a code with a known kind is that kind's code |
| Reports.FeatureErrorCode | HidPpSharp/src/HidPp20/FeatureReport.cs:11-26 | the code each error kind has in the feature error switch; FeatureErrorRoundTrip proves it inverts FeatureError |
| Reports.RegisterError | HidPpSharp/src/HidPp10/RegisterReport.cs:16-33 | register error decoding is total: every unlisted code decodes to Unknown |
| Reports.RegisterErrorRoundTrip | HidPpSharp/src/HidPp10/RegisterReport.cs:16-33 | a code decodes to a known kind exactly when it is listed (0x00-0x0C, 0xFE, 0xFF), and such a code is its kind's code |
| Reports.RegisterErrorCode | HidPpSharp/src/HidPp10/RegisterReport.cs:15-33 | the code each error kind has in the register error switch; RegisterErrorRoundTrip proves it inverts RegisterError |
| Reports.DjError | HidPpSharp/src/DJ/DjReport.cs:30-36 | a DJ error code decodes to KeepAliveTimeout exactly when it is 0x01, otherwise to Unknown |
| Reports.NewFeatureReport | HidPpSharp/src/HidPp20/FeatureReport.cs:4-28 | builds a feature report with header size 4 whenever the bytes the constructor reads exist (an index fault otherwise); success iff `raw[2] != 0xFF`; on success code 0 and NoError, on failure code `raw[5]` and its decoded kind |
| Reports.NewRegisterReport | HidPpSharp/src/HidPp10/RegisterReport.cs:4-35 | register report with header size 4; success iff `raw[2] != 0x8F`; on success sub-id `raw[2]` and address `raw[3]`, on failure sub-id `raw[3]`, address `raw[4]`, code `raw[5]` and its kind |
| Reports.NewDjReport | HidPpSharp/src/DJ/DjReport.cs:24-50 | DJ report with header size 2; success iff `raw[2] != 0x7F`, failure code `raw[3]`; an RF report keeps its type code and payload slice, any other report type 0 and an empty payload |
| Reports.RfPayload | HidPpSharp/src/DJ/DjReport.cs:40-45 | the HID payload slice chosen by raw byte 1, an ArgumentOutOfRange fault when the slice passes the end; RfPayloadLength states the lengths |
| Reports.RfPayloadLength | HidPpSharp/src/DJ/DjReport.cs:38-45 | the RF payload has 7 bytes for kinds 1 and 2, 3 for kind 3, none for kinds 4, 8 and 14, and everything after the header otherwise, always starting at byte 3 |
| Reports.DjReportKinds | HidPpSharp/src/DJ/DjReport.cs:8-22 | the DJ report type is RFReport exactly when the constructor kept the RF type code and payload, a failed report is a Notification, Command is `raw[2] >= 0x80`, and RfReportTypeCode is `raw[2]` |
| Reports.TryParseKnownIds | HidPpSharp/src/HidPpReport.cs:108-121 | on a buffer holding a frame's worth of bytes TryParse does not fault, and yields a report exactly when the first byte has a known frame length, keeping the bytes |
| Reports.TryParseVariant | HidPpSharp/src/HidPpReport.cs:109-118 | 0x10 gives a register report; 0x11 gives a register report iff `data[2] >= 0x80`, otherwise a feature report; 0x20/0x21 give a DJ report |
| Reports.TryParseFramed | HidPpSharp/src/HidPpReport.cs:108-121 | a complete frame parses into a report whose raw bytes have the length its id announces |
| Reports.FeatureErrorFrameIsRegisterReport | HidPpSharp/src/HidPpReport.cs:111-115 | a long frame with the feature error marker 0xFF at byte 2 parses as a successful register report |
| Reports.ReadersRefuseLastBytes | HidPpSharp/src/HidPpReport.cs:102-106 | reading the last two bytes (or last four) of a frame fails, while the pair one byte earlier is readable |
| Reports.ReadNumber | HidPpSharp/src/HidPpReport.cs:71-80 | the loop returns the big-endian value of `raw[4+offset .. 4+offset+length]` reduced to 64 bits, after the same data-size check |
| Reports.NumberAtExact | HidPpSharp/src/HidPpReport.cs:71-80 | up to eight bytes the 64-bit accumulator loses nothing: the result is the exact big-endian value |
| Reports.NumberAtInBounds | HidPpSharp/src/HidPpReport.cs:71-80 | for a feature or register report, passing the data-size check is enough for ReadNumber to succeed |
| InputReceiver.GrownCapacityFits | HidPpSharp/src/HidPpDeviceInputReceiver.cs:115-126 | the doubling loop ends with a capacity at least the needed count and at least the old one, within 32 bits and less than twice the need when it grew; it overflows only when the need exceeds half the 32-bit range |
| InputReceiver.Extract | HidPpSharp/src/HidPpDeviceInputReceiver.cs:143-177 | a frame extracted from the pending bytes is their first `GetSize(first byte)` bytes |
| InputReceiver.ResyncIffUnknownId | HidPpSharp/src/HidPpDeviceInputReceiver.cs:152-156 | on a running receiver with pending bytes, TryRead resynchronises exactly when the first byte has an unknown frame length, and parsing a complete frame never fails |
| InputReceiver.NeverUnparsable | HidPpSharp/src/HidPpDeviceInputReceiver.cs:164-169 | Extract never reports an unparsable frame, so the branch of TryRead that clears the buffer when TryParse returns false is never taken |
| InputReceiver.ExtractedIsFramed | HidPpSharp/src/HidPpDeviceInputReceiver.cs:164-169 | an extracted report is the parse of the copied frame and has its announced length |
| InputReceiver.ExtractHeadFrame | HidPpSharp/src/HidPpDeviceInputReceiver.cs:158-177 | with a complete frame at the head, TryRead returns the parse of exactly that frame and leaves the bytes behind it pending |
| InputReceiver.PartialFrameWaits | HidPpSharp/src/HidPpDeviceInputReceiver.cs:158-162 | fewer bytes than the announced frame length make TryRead wait |
| InputReceiver.Receiver.constructor | HidPpSharp/src/HidPpDeviceInputReceiver.cs:18-28 | a new receiver has a 2048-byte buffer, offset and count zero, nothing pending, and is not running |
| InputReceiver.Receiver.Start | HidPpSharp/src/HidPpDeviceInputReceiver.cs:51-65 | throws when the device stream is not open or the receiver is already running; otherwise it runs, unless the first BeginRead fails and stops it; the buffer is untouched |
| InputReceiver.Receiver.Stop | HidPpSharp/src/HidPpDeviceInputReceiver.cs:94-102 | the receiver stops and drops the stream; the buffer is untouched |
| InputReceiver.Receiver.ClearReceivedData | HidPpSharp/src/HidPpDeviceInputReceiver.cs:104-110 | offset and count go to zero and nothing stays pending |
| InputReceiver.Receiver.ProvideReceivedData | HidPpSharp/src/HidPpDeviceInputReceiver.cs:112-134 | appends the bytes at index count, keeps the earlier ones, grows the capacity by doubling and pends old pending + new bytes; a checked overflow raises and changes nothing |
| InputReceiver.Receiver.EndRead | HidPpSharp/src/HidPpDeviceInputReceiver.cs:76-92 | a failed read, a read completing after Stop detached the stream (whose `_stream!.EndRead` throws and is caught) or an empty read stops the receiver, detaches the stream and leaves the count, the buffer and the pending bytes unchanged; otherwise the read raises Overflow exactly when the new count passes int.MaxValue or no grown capacity holds it, and then nothing changes; a successful read appends the bytes to the pending data, grows the buffer to GrownCapacity and keeps the receiver running and the stream attached unless the next BeginRead fails |
| InputReceiver.Receiver.TryRead | HidPpSharp/src/HidPpDeviceInputReceiver.cs:140-179 | returns the report Extract finds in the pending bytes; a stopped, empty or incomplete buffer is left as it was, an unknown id or unparsable frame clears it, and an extracted frame is consumed: offset and count are reset when nothing remains, otherwise the offset moves past the frame and the count is kept |
| Waits.FirstAccepted | HidPpSharp/src/HidPp20/AbstractFeature.cs:79-96 | the report the wait keeps satisfies the callback's acceptance rule |
| Waits.FirstAcceptedIsEarliest | HidPpSharp/src/HidPp20/AbstractFeature.cs:79-105 | the wait finds nothing exactly when no received report is accepted, and otherwise keeps the earliest accepted one |
| FeatureCatalog.FirstWith | HidPpSharp/src/HidPp20/HidPp20Features.cs:63-76 | the position found is the first entry with the code, and none means no entry has it |
| FeatureCatalog.GetFeatureIndex | HidPpSharp/src/HidPp20/HidPp20Features.cs:63-66 | the index of the first entry with the code, or -1 when there is none |
| FeatureCatalog.GetFeatureInfoAsWritten | HidPpSharp/src/HidPp20/HidPp20Features.cs:68-71 | with no entry for the code it returns the default FeatureInfo, not null |
| FeatureCatalog.GetFeatureInfo | HidPpSharp/src/HidPp20/HidPp20Features.cs:68-71 | there is an answer exactly when the code is supported, and it is a catalog entry with that code |
| FeatureCatalog.Codes | HidPpSharp/src/HidPp20/HidPp20Features.cs:54-57 | enumeration yields one code per entry, in list order |
| FeatureCatalog.SupportedIffEnumerated | HidPpSharp/src/HidPp20/HidPp20Features.cs:54-76 | a code is supported exactly when enumeration yields it |
| FeatureCatalog.SupportedIffIndexFound | HidPpSharp/src/HidPp20/HidPp20Features.cs:63-76 | when no entry stores index -1, IsSupported is exactly GetFeatureIndex != -1 |
| FeatureCatalog.GetFeatureInfoAgreement | HidPpSharp/src/HidPp20/HidPp20Features.cs:68-71 | the corrected lookup agrees with the written one whenever it finds an entry; on a missing code the written one gives the default |
| FeatureCatalog.GetFeatureInfoAsWrittenOnEmpty | HidPpSharp/src/HidPp20/HidPp20Features.cs:68-71 | counterexample: on an empty catalog the written lookup of 0x1990 gives a Root-coded default entry instead of null |
| AbstractFeature.RequestId | HidPpSharp/src/HidPp20/AbstractFeature.cs:41 | the request id is 0x11 exactly when `parameters.Length + 4 > 7`, otherwise 0x10 |
| AbstractFeature.FuncSw | HidPpSharp/src/HidPp20/AbstractFeature.cs:42-43 | the fourth header byte holds `func mod 16` in the high nibble and the software id (low nibble of the random byte) in the low one |
| AbstractFeature.FeatureRequest | HidPpSharp/src/HidPp20/AbstractFeature.cs:41-56 | the request CallFunction builds: id, device, feature index, function and software id, parameters, zero padding; FeatureRequestLayout and FeatureRequestRoundTrip state its layout and that a report parsed from it gives the fields back |
| AbstractFeature.FeatureRequestLayout | HidPpSharp/src/HidPp20/AbstractFeature.cs:41-56 | the frame is `[reqId, device, featureIndex, funcSw] ++ params` padded with zeros to 7 or 20 bytes and never truncated |
| AbstractFeature.FeatureRequestRoundTrip | HidPpSharp/src/HidPp20/AbstractFeature.cs:43-56 | decoding the built frame as a feature report gives back the device index, the feature index, `func mod 16`, the software id and the parameters |
| AbstractFeature.FeatureMatchesKey | HidPpSharp/src/HidPp20/AbstractFeature.cs:69-95 | a feature report is accepted for a request exactly when its device index, feature index, function id and software id are the request's |
| AbstractFeature.FeatureMatches | HidPpSharp/src/HidPp20/AbstractFeature.cs:79-96 | the wait callback's test: a feature report with the request's feature index, software id and function id, from the same device; FeatureMatchesKey and EchoIsAccepted state which reports it accepts |
| AbstractFeature.EchoIsAccepted | HidPpSharp/src/HidPp20/AbstractFeature.cs:85-95 | a successful 20-byte long reply carrying the request's device index, feature index and function/software byte, with a feature index below 0x80, is parsed by TryParse as a successful feature report and accepted |
| AbstractFeature.ShortEchoRejected | HidPpSharp/src/HidPpReport.cs:109-110 | an echo of a short request (at most 3 parameter bytes) starts with 0x10, parses as a register report and is not accepted |
| AbstractFeature.HighIndexEchoRejected | HidPpSharp/src/HidPpReport.cs:111-113 | a long reply whose feature index is 0x80 or more parses as a register report and is not accepted |
| AbstractFeature.TimeoutFeatureReport | HidPpSharp/src/HidPp20/AbstractFeature.cs:102-105 | the timeout report is the feature report of `[0x11, data[1], 0xFF, data[3], 0x00, 0xFE]` |
| AbstractFeature.TimeoutReportDecodes | HidPpSharp/src/HidPp20/AbstractFeature.cs:102-105 | the feature-report constructor builds exactly that report from those bytes: a failure with code 0xFE (Timeout) keeping the request's function and software ids and device index |
| AbstractFeature.AwaitFeature | HidPpSharp/src/HidPp20/AbstractFeature.cs:68-110 | the wait returns an accepted report or the timeout report |
| AbstractFeature.AwaitFeatureFirstMatch | HidPpSharp/src/HidPp20/AbstractFeature.cs:79-105 | with no accepted report it returns the timeout report, otherwise the first accepted one; for a feature index other than 0xFF, the timeout report comes back exactly when nothing was accepted |
| AbstractFeature.CallFunction | HidPpSharp/src/HidPp20/AbstractFeature.cs:39-66 | writes the built frame; without a wait it returns null, with one it returns the wait's report |
| AbstractFeature.UnknownFeatureBoundTo0xFF | HidPpSharp/src/HidPp20/AbstractFeature.cs:17-22 | counterexample: binding a feature the catalog lacks, without a caller index, succeeds with index 0xFF |
| AbstractFeature.BindFeatureAsWritten | HidPpSharp/src/HidPp20/AbstractFeature.cs:17-24 | the constructor as written: fails with Unsupported only for an index of -1, otherwise binds the given or looked-up index truncated to a byte; UnknownFeatureBoundTo0xFF shows an unknown feature binding to 0xFF |
| AbstractFeature.BindFeature | HidPpSharp/src/HidPp20/AbstractFeature.cs:17-24 | corrected binding: fails with Unsupported exactly when the index in use (the caller's, else the resolved one) is -1 |
| AbstractFeature.BindFeatureResolves | HidPpSharp/src/HidPp20/AbstractFeature.cs:17-24 | binding by code succeeds exactly when the catalog supports the code, with the low byte of its index and its version |
| AbstractFeature.BindFeatureAgreement | HidPpSharp/src/HidPp20/AbstractFeature.cs:17-24 | the corrected and written bindings agree whenever a caller index is given or the code resolves |
| AbstractRegister.SubId | HidPpSharp/src/HidPp10/AbstractRegister.cs:9-12 | the four primitives use sub-ids 0x80-0x83 |
| AbstractRegister.SubIdsDistinct | HidPpSharp/src/HidPp10/AbstractRegister.cs:9-12 | the sub-ids of different primitives differ, and none is the error marker 0x8F |
| AbstractRegister.RegisterRequestAsWritten | HidPpSharp/src/HidPp10/AbstractRegister.cs:41-55 | the frame RequestRegister builds as written; RegisterRequestAsWrittenLayout states its bytes and OverlongShortRegisterRequest the short id it gives a frame longer than 7 bytes |
| AbstractRegister.RegisterRequest | HidPpSharp/src/HidPp10/AbstractRegister.cs:41-55 | the corrected frame, short exactly when it fits 7 bytes; RegisterRequestLayout states its bytes and RegisterRequestAgreement where it equals the frame as written |
| AbstractRegister.OverlongShortRegisterRequest | HidPpSharp/src/HidPp10/AbstractRegister.cs:42-55 | counterexample: with 4 to 7 parameter bytes the written builder makes an 8- to 11-byte frame with the short id, whose frame length is 7 |
| AbstractRegister.RegisterRequestLayout | HidPpSharp/src/HidPp10/AbstractRegister.cs:41-55 | corrected frame: `[0x10 or 0x11, device, subId, register] ++ params` then zeros; short exactly when at most 3 parameters; up to 16 parameters its length is the one its id announces, never truncated |
| AbstractRegister.RegisterRequestAsWrittenLayout | HidPpSharp/src/HidPp10/AbstractRegister.cs:41-55 | the frame as written starts with the short id exactly when at most 7 parameter bytes are given, then device index, sub-id and register, the parameters and zeros; it has 7 bytes for up to 3 parameter bytes, 20 for 8 to 16, and header plus parameters otherwise |
| AbstractRegister.RegisterRequestAgreement | HidPpSharp/src/HidPp10/AbstractRegister.cs:42-55 | the corrected and written builders agree except for 4 to 7 parameter bytes |
| AbstractRegister.ErrorReplyAccepted | HidPpSharp/src/HidPp10/AbstractRegister.cs:70-79 | a device's error reply names the request's sub-id and address behind 0x8F, decodes its error code and is accepted |
| AbstractRegister.RegisterMatches | HidPpSharp/src/HidPp10/AbstractRegister.cs:64-80 | the register wait callback's test: a register report from the same device with the request's sub-id and address; ErrorReplyAccepted and ShortReplyAccepted state which replies it accepts |
| AbstractRegister.TimeoutRegisterReport | HidPpSharp/src/HidPp10/AbstractRegister.cs:84-87 | the timeout report is the register report of `[0x10, device, 0x8F, data[2], data[3], 0xFE, 0x00]` |
| AbstractRegister.TimeoutRegisterReportDecodes | HidPpSharp/src/HidPp10/AbstractRegister.cs:84-87 | the register-report constructor builds exactly that report: a failure with Timeout (0xFE) that keeps the request's sub-id and address and so is accepted itself |
| AbstractRegister.AwaitRegister | HidPpSharp/src/HidPp10/AbstractRegister.cs:60-91 | the wait's report is always accepted: a matching register report or the timeout report |
| AbstractRegister.AwaitRegisterFirstMatch | HidPpSharp/src/HidPp10/AbstractRegister.cs:64-87 | with no accepted report it returns the timeout report, otherwise the first accepted one |
| AbstractRegister.RequestRegister | HidPpSharp/src/HidPp10/AbstractRegister.cs:41-58 | Combine and Array.Resize build the frame as written, short exactly when at most 7 parameter bytes are given; it equals the corrected frame for at most 3 or more than 7 bytes; the response is the wait's report for that frame |
| AbstractRegister.AccessRegister | HidPpSharp/src/HidPp10/AbstractRegister.cs:25-39 | each primitive sends the as-written frame with its sub-id and the register id as address, and the response carries that sub-id and address |
| AbstractRegister.ShortReply | HidPpSharp/src/HidPp10/RegisterReport.cs:4-11 | a successful short reply is what the constructor builds from its seven bytes, and its Data is the three payload bytes |
| AbstractRegister.ShortReplyAccepted | HidPpSharp/src/HidPp10/AbstractRegister.cs:70-79 | a short reply echoing a primitive is accepted for that primitive's request, whatever its parameters |
| NotificationRegister.SetResult | HidPpSharp/src/HidPp10/x00-Notification.cs:61-66 | a Set call succeeds exactly when the response does, and otherwise raises the response's register error |
| NotificationRegister.SetReceiverParams | HidPpSharp/src/HidPp10/x00-Notification.cs:61-62 | SetReceiver sends `[0x00, flags, 0x00]` |
| NotificationRegister.GetReceiverResult | HidPpSharp/src/HidPp10/x00-Notification.cs:68-71 | GetReceiver returns payload byte 1 of a successful response and raises the response's error otherwise |
| NotificationRegister.ReceiverRoundTrip | HidPpSharp/src/HidPp10/x00-Notification.cs:61-71 | on an echoing register, GetReceiver returns the flags SetReceiver wrote |
| NotificationRegister.SetDeviceParams | HidPpSharp/src/HidPp10/x00-Notification.cs:73-74 | SetDevice sends `[low, 0x00, high]` of the 16-bit flags |
| NotificationRegister.GetDeviceAsWritten | HidPpSharp/src/HidPp10/x00-Notification.cs:80-85 | GetDevice as written returns `payload[2]*256 + payload[1]`, or the response's error |
| NotificationRegister.DeviceFlagsLost | HidPpSharp/src/HidPp10/x00-Notification.cs:73-85 | counterexample: after SetDevice(0x0001), GetDevice as written reads back 0 from an echoing register |
| NotificationRegister.GetDevice | HidPpSharp/src/HidPp10/x00-Notification.cs:80-85 | corrected GetDevice returns `payload[2]*256 + payload[0]`, or the response's error |
| NotificationRegister.DeviceRoundTrip | HidPpSharp/src/HidPp10/x00-Notification.cs:73-85 | on an echoing register, the corrected GetDevice returns the flags SetDevice wrote |
| IndividualFeaturesRegister.SetParams | HidPpSharp/src/HidPp10/x01-IndividualFeatures.cs:56-57 | Set sends `[low, 0x00, high]` of the 16-bit flags |
| IndividualFeaturesRegister.SetResult | HidPpSharp/src/HidPp10/x01-IndividualFeatures.cs:56-61 | Set succeeds exactly when the response does, and otherwise raises its register error |
| IndividualFeaturesRegister.GetResult | HidPpSharp/src/HidPp10/x01-IndividualFeatures.cs:49-54 | Get returns `payload[2]*256 + payload[0]`, or the response's register error |
| IndividualFeaturesRegister.SetThenGet | HidPpSharp/src/HidPp10/x01-IndividualFeatures.cs:49-61 | Get after Set on an echoing register returns the same 16-bit flags |
| IndividualFeaturesRegister.GetTimeout | HidPpSharp/src/HidPp10/AbstractRegister.cs:84-87 | a timed-out Get raises the Timeout register error |
| RootFeature.RootBoundAtZero | HidPpSharp/src/HidPp20/x0000-Root.cs:10 | Root is always bound at feature index 0 |
| RootFeature.GetFeatureParams | HidPpSharp/src/HidPp20/x0000-Root.cs:14 | GetFeature's parameters are `Pack((ushort)feature)`: the code low byte first |
| RootFeature.GetFeatureParamsByteOrder | HidPpSharp/src/HidPp20/x0000-Root.cs:14 | read big-endian, those parameters are the code byte-swapped; FeatureSet (0x0001) goes out as `[0x01, 0x00]` |
| RootFeature.GetFeatureResult | HidPpSharp/src/HidPp20/x0000-Root.cs:12-23 | a decoded FeatureInfo carries the requested code and an index of at least 1 |
| RootFeature.GetFeatureDecodes | HidPpSharp/src/HidPp20/x0000-Root.cs:14-22 | success yields index `response[0]+1`, the requested code, type `response[1]` and version `response[2]`; failure raises the response's error |
| RootFeature.ProtocolVersionParams | HidPpSharp/src/HidPp20/x0000-Root.cs:28 | GetProtocolVersion sends two zero bytes and the ping byte |
| RootFeature.ProtocolVersionResult | HidPpSharp/src/HidPp20/x0000-Root.cs:25-39 | the version from payload bytes 0 and 1 on success; otherwise Unknown when the echoed byte is not the ping and the response's error when it is; ProtocolVersionDecodes and ProtocolVersionTimeout state both paths |
| RootFeature.ProtocolVersionDecodes | HidPpSharp/src/HidPp20/x0000-Root.cs:25-39 | success yields `ProtocolVersion(response[0], response[1])`; a failure whose `response[2]` is not the ping raises Unknown (wrong ping data), otherwise the response's own error |
| RootFeature.ProtocolVersionTimeout | HidPpSharp/src/HidPp20/x0000-Root.cs:34 | on the timeout report the ping check itself throws an index error |
| FeatureSetFeature.GetCountResult | HidPpSharp/src/HidPp20/x0001-FeatureSet.cs:12-16 | GetCount returns the byte `response[0]` of a successful frame and raises the response's error on failure |
| FeatureSetFeature.GetFeatureIdParams | HidPpSharp/src/HidPp20/x0001-FeatureSet.cs:20 | GetFeatureId sends the low byte of the index |
| FeatureSetFeature.GetFeatureIdResult | HidPpSharp/src/HidPp20/x0001-FeatureSet.cs:18-29 | a decoded entry carries the requested index; failure raises the response's error |
| FeatureSetFeature.GetFeatureIdDecodes | HidPpSharp/src/HidPp20/x0001-FeatureSet.cs:22-26 | on a successful long frame the entry is `(i, big-endian code at payload 0, type response[2], version response[3])` |
| Discovery.Entry | HidPpSharp/src/HidPp20/HidPp20Features.cs:104-106 | the i-th FeatureSet entry has index i |
| Discovery.Listing | HidPpSharp/src/HidPp20/HidPp20Features.cs:104-107 | a completed listing of n requests holds, at position i, the answer to the request for index i+1 |
| Discovery.ListingStopsAtFailure | HidPpSharp/src/HidPp20/HidPp20Features.cs:104-107 | once the request for index k fails, every longer listing fails with that fault |
| Discovery.Entries | HidPpSharp/src/HidPp20/HidPp20Features.cs:103-107 | the loop's entries are the n entries with indices 1..n in order |
| Discovery.EntriesStopAtFailure | HidPpSharp/src/HidPp20/HidPp20Features.cs:103-107 | the first failing GetFeatureId aborts discovery with its fault |
| Discovery.FeatureSetBinding | HidPpSharp/src/HidPp20/HidPp20Features.cs:98-102 | once the FeatureSet entry is stored, the FeatureSet client binds to its index and version |
| Discovery.Discover | HidPpSharp/src/HidPp20/HidPp20Features.cs:98-108 | ReadFeatures on values: FeatureSet's entry from Root, then every entry FeatureSet lists; DiscoverShape and DiscoveredLookups state its result |
| Discovery.ListFeatures | HidPpSharp/src/HidPp20/HidPp20Features.cs:101-107 | what is gathered after the FeatureSet entry is that entry followed by the count entries |
| Discovery.DiscoverShape | HidPpSharp/src/HidPp20/HidPp20Features.cs:98-108 | discovery stores the FeatureSet entry first and then entries 1..count, count+1 in all, every index at least 1, and the FeatureSet code looks up its own index |
| Discovery.DiscoveredLookups | HidPpSharp/src/HidPp20/HidPp20Features.cs:63-76 | on a discovered catalog, IsSupported is exactly GetFeatureIndex != -1 |
| Discovery.HidPp20Features.constructor | HidPpSharp/src/HidPp20/HidPp20Features.cs:45-49 | a new catalog is empty; the C# constructor then runs ReadFeatures (line 49), which the model splits off into the method ReadFeatures, whose requirement that the catalog be empty is exactly what the constructor leaves |
| Discovery.HidPp20Features.ReadFeatures | HidPpSharp/src/HidPp20/HidPp20Features.cs:98-108 | on success the list is what discovery yields; a failed call raises its fault |
| Discovery.HidPp20Features.ListEntries | HidPpSharp/src/HidPp20/HidPp20Features.cs:101-107 | after GetCount the catalog is the FeatureSet entry followed by the count entries, or the first fault is raised |
| Discovery.HidPp20Features.AppendEntries | HidPpSharp/src/HidPp20/HidPp20Features.cs:104-107 | the for-loop appends exactly the entries for indices 1..count to what was stored, or raises the first failing request's fault |
| ProtocolVersions.DefaultVersion | HidPpSharp/src/HidPp20/ProtocolVersion.cs:7 | the default version is (0, 0), and no flag holds for it |
| ProtocolVersions.ProtocolVersion.Lenovo | HidPpSharp/src/HidPp20/ProtocolVersion.cs:17-19 | protocol 3 with target bit 0x01; FlagFamiliesExclusive and SoftwareFlagsAreBits state how the flags relate |
| ProtocolVersions.ProtocolVersion.Dell | HidPpSharp/src/HidPp20/ProtocolVersion.cs:24-26 | protocol 3 with target bit 0x02 |
| ProtocolVersions.ProtocolVersion.LogitechDeviceManager | HidPpSharp/src/HidPp20/ProtocolVersion.cs:28-30 | protocol 4 with target bit 0x01 |
| ProtocolVersions.ProtocolVersion.LogitechGamingSoftware | HidPpSharp/src/HidPp20/ProtocolVersion.cs:32-34 | protocol 4 with target bit 0x02 (LogitechGameingSoftware in the code) |
| ProtocolVersions.ProtocolVersion.LogitechPreferenceManager | HidPpSharp/src/HidPp20/ProtocolVersion.cs:36-38 | protocol 4 with target bit 0x04 |
| ProtocolVersions.ProtocolVersion.WindowsPresenterSoftware | HidPpSharp/src/HidPp20/ProtocolVersion.cs:40-42 | protocol 4 with target bit 0x08 |
| ProtocolVersions.ProtocolVersion.MacPresenterSoftware | HidPpSharp/src/HidPp20/ProtocolVersion.cs:44-46 | protocol 4 with target bit 0x10 |
| ProtocolVersions.ProtocolVersion.TargetSoftwareFeature | HidPpSharp/src/HidPp20/ProtocolVersion.cs:48-50 | protocol 4 with target bit 0x80 |
| ProtocolVersions.ProtocolVersion.LogitechSetPoint | HidPpSharp/src/HidPp20/ProtocolVersion.cs:52-54 | protocol 2, whatever the target bits |
| ProtocolVersions.ProtocolVersion.IsTargetBitSet | HidPpSharp/src/HidPp20/ProtocolVersion.cs:56-58 | every bit of the mask is set in the target-software byte; TargetBitSetMeaning states it for single bits |
| ProtocolVersions.ProtocolVersion.AnyOem | HidPpSharp/src/HidPp20/ProtocolVersion.cs:14-26 | groups the two OEM flags so that FlagFamiliesExclusive can state that no OEM flag holds together with a Logitech one |
| ProtocolVersions.ProtocolVersion.AnyLogitechSoftware | HidPpSharp/src/HidPp20/ProtocolVersion.cs:28-50 | groups the six Logitech software flags for FlagFamiliesExclusive |
| ProtocolVersions.TargetBitSetMeaning | HidPpSharp/src/HidPp20/ProtocolVersion.cs:56-58 | `IsTargetBitSet(1 << k)` is bit k of the target software byte, a mask is set iff each part is, and the empty mask is always set |
| ProtocolVersions.FlagFamiliesExclusive | HidPpSharp/src/HidPp20/ProtocolVersion.cs:17-54 | OEM flags need protocol 3, Logitech software flags protocol 4 and SetPoint protocol 2, so flags of different families are never true together |
| ProtocolVersions.SoftwareFlagsAreBits | HidPpSharp/src/HidPp20/ProtocolVersion.cs:28-50 | under protocol 4 the six software flags are bits 0, 1, 2, 3, 4 and 7 |
| ByteUtils.Low8 | HidPpSharp/src/ByteUtils.cs:76 | the `(byte)` cast is the value mod 256 |
| ByteUtils.LittleEndianPair | HidPpSharp/src/ByteUtils.cs:21-22 | `BitConverter.GetBytes(ushort)` is low byte then high byte |
| ByteUtils.BigEndianPair | HidPpSharp/src/ByteUtils.cs:83-85 | two bytes read big-endian are `hi*256 + lo` |
| ByteUtils.BigEndianBound | HidPpSharp/src/HidPpReport.cs:47-69 | n bytes read big-endian stay below 256^n |
| ByteUtils.LittleEndianRoundTrip | HidPpSharp/src/ByteUtils.cs:21-26 | a value below 256^n written little-endian in n bytes reads back unchanged |
| ByteUtils.Encode | HidPpSharp/src/ByteUtils.cs:7-42 | the bytes Pack writes for one argument, little-endian for unsigned integers and an InvalidCast or NotPrimitive fault for the rest; EncodeWidth states the width |
| ByteUtils.EncodeWidth | HidPpSharp/src/ByteUtils.cs:14-35 | one value packs exactly when its type is a packable one, into 1 byte per byte, the array's length, 2/4/8 bytes per unsigned 16/32/64-bit value and one byte per character |
| ByteUtils.PackLength | HidPpSharp/src/ByteUtils.cs:7-42 | Pack succeeds exactly when every argument packs, and its output length is the sum of the widths |
| ByteUtils.Pack | HidPpSharp/src/ByteUtils.cs:7-42 | the stream-writing loop returns the concatenated encodings, or the first argument's fault |
| ByteUtils.PackStopsAtFailure | HidPpSharp/src/ByteUtils.cs:7-42 | once a prefix of the arguments fails, the whole call fails the same way |
| ByteUtils.PackOfSnoc | HidPpSharp/src/ByteUtils.cs:7-42 | packing one more argument appends its encoding |
| ByteUtils.Concat | HidPpSharp/src/ByteUtils.cs:54-63 | the concatenation has the sum of the input lengths |
| ByteUtils.ConcatPair | HidPpSharp/src/ByteUtils.cs:54-63 | two arrays concatenate in order |
| ByteUtils.Resize | HidPpSharp/src/HidPp20/AbstractFeature.cs:52-56 | `Array.Resize` keeps the first bytes, truncates or pads with zeros to the new length |
| ByteUtils.Combine | HidPpSharp/src/ByteUtils.cs:54-63 | the resize-and-copy loop returns the in-order concatenation, of the summed length |
| ByteUtils.PartEqual | HidPpSharp/src/ByteUtils.cs:44-52 | true exactly when the arrays agree on their first `min(len)` bytes |
| ByteUtils.HexPairRoundTrip | HidPpSharp/src/ByteUtils.cs:65-69 | each byte shows as two hex digits that give the byte back |
| ByteUtils.Hex | HidPpSharp/src/ByteUtils.cs:65-69 | the BitConverter.ToString text ToString returns has three characters per byte less the last dash; HexAt states what sits at each position |
| ByteUtils.HexAt | HidPpSharp/src/ByteUtils.cs:65-69 | `BitConverter.ToString` shows byte i at characters 3i..3i+1, with dashes between |
| ByteUtils.ToStringCoversFrame | HidPpSharp/src/ByteUtils.cs:65-69 | ToString shows the first `min(a.Length, 7 if a[0] == 0x10 else 20)` bytes |
| ByteUtils.ShiftCount | HidPpSharp/src/ByteUtils.cs:76 | C# masks a 32-bit shift count to five bits |
| ByteUtils.SetBit | HidPpSharp/src/ByteUtils.cs:71-77 | SetBit throws exactly when `bit > 7` |
| ByteUtils.SetBitThenTest | HidPpSharp/src/ByteUtils.cs:71-81 | for 0 <= k <= 7, bit k afterwards is the requested value and every other bit is unchanged |
| ByteUtils.IsBitSet | HidPpSharp/src/ByteUtils.cs:79-81 | tests bit `bit` of the byte, with the shift count taken modulo 32 as C# does, and false when that count is above 7; SetBitThenTest states that it reads back what SetBit wrote |
| ByteUtils.ToUInt16 | HidPpSharp/src/ByteUtils.cs:83-85 | `b[o]*256 + b[o+1]`, an index fault when either byte is missing |
| ByteUtils.ToSigned16 | HidPpSharp/src/ByteUtils.cs:87-89 | the `(short)` cast is the signed 16-bit number congruent to the value |
| ByteUtils.ToSigned32 | HidPpSharp/src/HidPpReport.cs:53-60 | an `int` built from four bytes is the signed 32-bit number congruent to their value |
| ByteUtils.ToInt16 | HidPpSharp/src/ByteUtils.cs:87-89 | fails exactly when ToUInt16 does and is its signed reading |
| Illumination.SetResult | HidPpSharp/src/HidPp20/x1990-Illumination.cs:82-87 | a Set call succeeds exactly when the response does, and otherwise raises the response's feature error |
| Illumination.SetIlluminationParams | HidPpSharp/src/HidPp20/x1990-Illumination.cs:83 | SetIllumination sends one byte whose bit 0 is the state |
| Illumination.GetIlluminationResult | HidPpSharp/src/HidPp20/x1990-Illumination.cs:71-74 | GetIllumination returns bit 0 of payload byte 0, or the response's error |
| Illumination.IlluminationRoundTrip | HidPpSharp/src/HidPp20/x1990-Illumination.cs:71-87 | a state set and echoed back reads back unchanged |
| Illumination.SetValueParams | HidPpSharp/src/HidPp20/x1990-Illumination.cs:116-117 | SetBrightness and SetColorTemperature send `Pack((ushort)value)`, two bytes |
| Illumination.SetValueByteOrder | HidPpSharp/src/HidPp20/x1990-Illumination.cs:117 | read big-endian, those two bytes are the value mod 2^16 byte-swapped |
| Illumination.GetValueResult | HidPpSharp/src/HidPp20/x1990-Illumination.cs:104-107 | GetBrightness and GetColorTemperature return ReadUInt16(0) of a successful response, below 2^16, or the response's error |
| Illumination.GetLevelsParams | HidPpSharp/src/HidPp20/x1990-Illumination.cs:132 | the levels request sends `(byte)(startIndex << 4)`: the start index mod 16 in the high nibble |
| Illumination.ReadInfo | HidPpSharp/src/HidPp20/x1990-Illumination.cs:48-56 | the info decodes exactly when the frame has 12 bytes or more: capabilities `[0]`, min, max and resolution big-endian at 1, 3, 5 and maxLevels `[7] & 0x0F`; a shorter frame gives the fault the first failing read throws |
| Illumination.ReadInfoInverts | HidPpSharp/src/HidPp20/x1990-Illumination.cs:48-56 | a frame carrying an info's fields in that layout decodes to that info |
| Illumination.ReadInfoFields | HidPpSharp/src/HidPp20/x1990-Illumination.cs:48-56 | on a long frame the info is read from bytes 4 to 11 |
| Illumination.GetInfoResult | HidPpSharp/src/HidPp20/x1990-Illumination.cs:92-99 | GetBrightnessInfo decodes a successful response and raises the error otherwise; a decoded info has 16-bit fields and maxLevels below 16 |
| Illumination.NewLinearLevels | HidPpSharp/src/HidPp20/x1990-Illumination.cs:302 | a new linear table is linear, not a reset, and all zero |
| Illumination.NewNonLinearLevels | HidPpSharp/src/HidPp20/x1990-Illumination.cs:338-349 | the constructor throws ArgumentOutOfRange unless 1 to 7 values are given, and then keeps them with Count = their number |
| Illumination.LinearFromResponse | HidPpSharp/src/HidPp20/x1990-Illumination.cs:304-308 | decodes exactly when the frame has 13 bytes or more: IsLinear bit 0 of `[0]`, StartIndex `[1] >> 4`, min, max and step big-endian at 2, 4, 6 |
| Illumination.ReadValues | HidPpSharp/src/HidPp20/x1990-Illumination.cs:355-357 | count values read exactly when `2*count + 6 < RawData.Length`, value i being the big-endian pair at payload 2+2i |
| Illumination.CountAsWritten | HidPpSharp/src/HidPp20/x1990-Illumination.cs:352 | `r[0] & (0xE0 >> 5)` is `r[0] mod 8` |
| Illumination.Count | HidPpSharp/src/HidPp20/x1990-Illumination.cs:352 | the intended count `(r[0] & 0xE0) >> 5` is `r[0] / 32` |
| Illumination.NonLinearWith | HidPpSharp/src/HidPp20/x1990-Illumination.cs:351-358 | a non-linear table from a response: IsLinear bit 0, StartIndex high nibble and LevelCount low nibble of `[1]`, then the count values |
| Illumination.NonLinearFromResponseAsWritten | HidPpSharp/src/HidPp20/x1990-Illumination.cs:351-358 | the written decoder uses the `& 7` count |
| Illumination.NonLinearFromResponse | HidPpSharp/src/HidPp20/x1990-Illumination.cs:351-358 | the corrected decoder uses the top three bits as the count; its values number that count, below 8 |
| Illumination.SevenValuesUnreadable | HidPpSharp/src/HidPp20/x1990-Illumination.cs:355-357 | a 20-byte frame announcing seven values fails to decode, because the strict data-size check refuses the last pair |
| Illumination.FillValues | HidPpSharp/src/HidPp20/x1990-Illumination.cs:354-357 | the loop filling a fresh array of Count slots yields the Count big-endian values of the table, or the first failing read's fault |
| Illumination.NonLinearLevelsFromResponse | HidPpSharp/src/HidPp20/x1990-Illumination.cs:351-358 | the loop that fills `Values` returns the table the constructor builds as written: Count is `response[0] & 7` (the `& (0xE0 >> 5)` of the code), LevelCount the low nibble of byte 1 and the values big-endian from offset 2 on; a failed read is its error |
| Illumination.ReadLevelsAsWritten | HidPpSharp/src/HidPp20/x1990-Illumination.cs:58-64 | ReadLevelsFromResponse as written only ever yields a linear table |
| Illumination.NonLinearTableReadAsLinear | HidPpSharp/src/HidPp20/x1990-Illumination.cs:58-64 | counterexample: a response whose linear flag is clear still decodes as a linear table (with IsLinear false) |
| Illumination.ReadLevels | HidPpSharp/src/HidPp20/x1990-Illumination.cs:58-64 | corrected: the linear decoder when bit 0 of `[0]` is set, the non-linear one when it is clear |
| Illumination.ReadLevelsConsistent | HidPpSharp/src/HidPp20/x1990-Illumination.cs:58-64 | a decoded table is of the linear kind exactly when its IsLinear flag says so |
| Illumination.GetLevelsResult | HidPpSharp/src/HidPp20/x1990-Illumination.cs:131-138 | a failed response raises its feature error; a successful one goes through ReadLevelsFromResponse (lines 58-64), which builds LinearLevels on both branches, so a frame under 5 bytes raises an index error, any other gives the linear decoding, and the result is never a non-linear table |
| Illumination.LinearPack | HidPpSharp/src/HidPp20/x1990-Illumination.cs:326-334 | LinearLevels.Pack is the Pack of `0x03/0x01`, `StartIndex << 4` and the three 16-bit values: 8 bytes |
| Illumination.LinearPackReadBack | HidPpSharp/src/HidPp20/x1990-Illumination.cs:304-334 | a packed linear table echoed in a frame decodes to a linear table with StartIndex mod 16 and the three values byte-swapped |
| Illumination.ValuesData | HidPpSharp/src/HidPp20/x1990-Illumination.cs:382 | the values data has two bytes per value |
| Illumination.ValuesDataAt | HidPpSharp/src/HidPp20/x1990-Illumination.cs:382 | value i sits little-endian at bytes 2i and 2i+1 |
| Illumination.HeaderByte0AsWritten | HidPpSharp/src/HidPp20/x1990-Illumination.cs:385 | the first header byte NonLinearLevels.Pack computes, `(Count & 0x06) << 5` with bit 1 for reset; OddCountDropped shows an odd count sent as the even count below it |
| Illumination.OddCountDropped | HidPpSharp/src/HidPp20/x1990-Illumination.cs:385 | counterexample: `Count & 0x06` drops bit 0, so a header for count c announces c - c mod 2, and one value announces none |
| Illumination.HeaderByte0RoundTrip | HidPpSharp/src/HidPp20/x1990-Illumination.cs:352-385 | the corrected header byte announces the count, keeps bit 0 clear and bit 1 for reset; the written `& 7` count reads it as 2 or 0 |
| Illumination.OneValueReadAsNone | HidPpSharp/src/HidPp20/x1990-Illumination.cs:352 | counterexample: the header byte 0x20 of one value decodes to a count of 0 as written |
| Illumination.HeaderByte1 | HidPpSharp/src/HidPp20/x1990-Illumination.cs:386 | the second header byte has StartIndex mod 16 in the high nibble and LevelCount mod 16 in the low one |
| Illumination.NonLinearPackAlwaysThrows | HidPpSharp/src/HidPp20/x1990-Illumination.cs:381-389 | counterexample: NonLinearLevels.Pack always throws InvalidCast, because its header bytes are `int`s that Pack unboxes as `uint` |
| Illumination.NonLinearPackAsWritten | HidPpSharp/src/HidPp20/x1990-Illumination.cs:381-389 | NonLinearLevels.Pack as written, two header bytes boxed as `int` and the values data; NonLinearPackAlwaysThrows shows Pack refuses it with InvalidCast for every table |
| Illumination.NonLinearPack | HidPpSharp/src/HidPp20/x1990-Illumination.cs:381-389 | the corrected Pack is two header bytes then the values data: `2 + 2*count` bytes |
| Illumination.SwappedValues | HidPpSharp/src/HidPp20/x1990-Illumination.cs:382 | the values as a big-endian reader sees them: each mod 2^16, byte-swapped |
| Illumination.ReadValuesOfPack | HidPpSharp/src/HidPp20/x1990-Illumination.cs:351-389 | reading the values of a packed table back gives the byte-swapped values |
| Illumination.NonLinearPackReadBack | HidPpSharp/src/HidPp20/x1990-Illumination.cs:351-389 | a packed table of up to 6 values echoed in a frame decodes to the same non-linear table (start index and level count mod 16, values byte-swapped); 7 values do not decode |
| Illumination.SetLevelsParams | HidPpSharp/src/HidPp20/x1990-Illumination.cs:155-160 | SetBrightnessLevels sends LinearPack's bytes for linear levels, and for every non-linear table its Pack raises InvalidCast (lines 381-389), so nothing is sent |

## Left out

- Discovery.HidPp20Features.constructor: does not run ReadFeatures, because the discovery calls are a parameter of the method ReadFeatures; constructing and then calling ReadFeatures is what the C# constructor does in one step.
- HidSharp stream I/O (BeginRead, EndRead, Write, TryOpen): foreign calls. A completed read is a byte sequence given to `EndRead`, and whether the stream is open or a BeginRead fails are parameters.
- Threads, locks, events and wall-clock timeouts. The wait of a call is the pure "first accepted report among those received, else the timeout report" (`Waits.FirstAccepted`), not concurrency. The race between listeners sharing one buffer is not modelled.
- The callback of a wait overwrites `report` when a later report also matches before it unsubscribes; the model keeps the first match.
- The random software id and the ping byte: parameters.
- The reflection-based feature registry (the static constructor, `GetFeature`, `GetFeature<T>`) and the device factory: runtime type scanning with nothing to decode.
- The float and double branches of `Pack`: floating point. Host byte order is fixed to little-endian.
- Device and receiver topology, `Dispose`, logging, the exception classes and each report's `ToString` text.
- InputReceiver.Receiver.TryRead: models `TryRead(byte[] buffer, int offset, out report)` without the caller's buffer. The frame is handed out as a sequence, so the `Buffer.BlockCopy` into that buffer (HidPpDeviceInputReceiver.cs:164), and the exception it throws when the buffer is too short from `offset`, are not modelled. The callers in the library pass a 256-byte buffer at offset 0 (AbstractFeature.cs:81, AbstractRegister.cs:66), and the `TryRead(out report)` overload passes 512 bytes, all longer than any frame.
- Reports.Report.ReadUInt16: offsets are unbounded integers, so C#'s 32-bit wrap-around in `HeaderSize + offset + count` (HidPpReport.cs:103) and in `offset += HeaderSize` (:49) is not modelled; for an offset within a few bytes of int.MaxValue the sum wraps negative, the check passes and the source throws IndexOutOfRange where the model gives ArgumentOutOfRange.
- Reports.Report.ReadInt16: the same 32-bit wrap of the size check and of `offset += HeaderSize` (HidPpReport.cs:43) is not modelled, with the same IndexOutOfRange against ArgumentOutOfRange difference near int.MaxValue.
- Reports.Report.ReadUInt32: the same 32-bit wrap (HidPpReport.cs:63) is not modelled.
- Reports.Report.ReadInt32: the same 32-bit wrap (HidPpReport.cs:55) is not modelled.
- Reports.ReadNumber: the same 32-bit wrap of the size check and of `offset += 4` (HidPpReport.cs:73) is not modelled, nor the wrap of `HeaderSize + offset + length` for a negative length near int.MinValue.
- Reports.ReadBitAt: stated for ReadBit, whose size check and `offset += 4` (HidPpReport.cs:84) wrap in the same way; the model does not capture it.
- The other feature and register wrappers (for example xB5 PairingInformation or x1000 BatteryStatus): field reads over CallFunction with nothing new.
- The colour-temperature calls of Illumination (x1990-Illumination.cs:165-234): they are the brightness calls with other function ids, and share their members.

## Findings

| source | as written | input that shows it | evidently intended | confidence | as-written member | corrected member |
|---|---|---|---|---|---|---|
| HidPpSharp/src/HidPp10/x00-Notification.cs:80-84 | GetDevice reads `payload[2] << 8` OR-ed with `payload[1]` | SetDevice(0x0001) writes `[0x01, 0x00, 0x00]`; GetDevice reads 0 | GetDevice reads `payload[0]` as the low byte, where SetDevice writes it | not executed | NotificationRegister.DeviceFlagsLost | NotificationRegister.DeviceRoundTrip |
| HidPpSharp/src/HidPp20/x1990-Illumination.cs:384-388 | the header bytes are `int` expressions (two `(byte)` casts OR-ed together), and Pack unboxes a boxed `int` as `uint` | any NonLinearLevels, e.g. one value 0: Pack throws InvalidCastException | the header bytes are passed as `byte` | not executed | Illumination.NonLinearPackAlwaysThrows | Illumination.NonLinearPackReadBack |
| HidPpSharp/src/HidPp20/x1990-Illumination.cs:385 | `(Count & 0x06) << 5` | Count 1 gives header 0x00, which announces no values | `(Count & 0x07) << 5` | not executed | Illumination.OddCountDropped | Illumination.HeaderByte0RoundTrip |
| HidPpSharp/src/HidPp20/x1990-Illumination.cs:352 | `response[0] & (0xE0 >> 5)`, which is `response[0] & 7` | header 0x20 (one value) reads as count 0 | `(response[0] & 0xE0) >> 5` | not executed | Illumination.OneValueReadAsNone | Illumination.HeaderByte0RoundTrip |
| HidPpSharp/src/HidPp20/x1990-Illumination.cs:58-64 | both branches return `new LinearLevels(report)` | a 13-byte response whose payload starts 0x20 (non-linear, one value) decodes as a linear table | the clear-bit branch returns `new NonLinearLevels(report)` | not executed | Illumination.NonLinearTableReadAsLinear | Illumination.ReadLevelsConsistent |
| HidPpSharp/src/HidPp20/AbstractFeature.cs:17-22 | the check `featureIndex == -1` looks at the caller's argument, not the resolved index | a feature missing from the catalog, constructed without an index, binds to index 0xFF | throw Unsupported when the resolved index is -1 | not executed | AbstractFeature.UnknownFeatureBoundTo0xFF | AbstractFeature.BindFeatureResolves |
| HidPpSharp/src/HidPp10/AbstractRegister.cs:42 | `isShort = parameters.Length <= 7` | four parameter bytes give an 8-byte frame with the short id 0x10, whose length is 7 | short exactly when `parameters.Length + 4 <= 7`, as in feature calls | not executed | AbstractRegister.OverlongShortRegisterRequest | AbstractRegister.RegisterRequestLayout |
| HidPpSharp/src/HidPp20/HidPp20Features.cs:68-71 | `FirstOrDefault()` on a `FeatureInfo` struct returns the default value, never null | looking up 0x1990 in an empty catalog yields the all-zero entry with the Root code 0x0000 instead of null | the nullable result is null when no entry has the code | not executed | FeatureCatalog.GetFeatureInfoAsWrittenOnEmpty | FeatureCatalog.GetFeatureInfoAgreement |
