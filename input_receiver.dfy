/** The per-device input receiver: it accumulates the bytes the HID stream
    delivers in a growable buffer and hands them out one complete report at a
    time. The bytes between `offset` and `count` are the ones not yet read. */
module InputReceiver {
  import opened Common
  import opened ByteUtils
  import opened Reports

  const InitialCapacity: nat := 2048
  const MaxInt32: int := 0x7FFF_FFFF

  /** The buffer length after ProvideReceivedData asks for room for `needed`
      bytes: doubled (with a checked multiplication) until it is large enough;
      None when a doubling overflows a 32-bit int. */
  function GrownCapacity(length: nat, needed: int): Option<nat>
    requires length >= 1
    decreases if length >= needed then 0 else needed - length
  {
    if length >= needed then Some(length)
    else if length * 2 > MaxInt32 then None
    else GrownCapacity(length * 2, needed)
  }

  /** The grown buffer is large enough, never shrinks, stays a valid 32-bit
      length, and is not more than twice what was asked for unless it was not
      grown at all. */
  lemma {:induction false} GrownCapacityFits(length: nat, needed: int)
    requires 1 <= length <= MaxInt32
    ensures GrownCapacity(length, needed).Some? ==>
              var c := GrownCapacity(length, needed).value;
              c >= needed && c >= length && c <= MaxInt32 && (c == length || c < 2 * needed)
    ensures GrownCapacity(length, needed).None? ==> needed > length && needed > MaxInt32 / 2
    decreases if length >= needed then 0 else needed - length
  {
    if length < needed && length * 2 <= MaxInt32 {
      GrownCapacityFits(length * 2, needed);
    }
  }

  /** What one TryRead call finds in the unread bytes. */
  datatype ReadStep =
    | NotRunning                            // the receiver is stopped
    | Empty                                 // nothing unread
    | Resync                                // first byte is not a report id: everything is dropped
    | Incomplete                            // the frame has not fully arrived
    | Unparsable                            // TryParse refused the frame: everything is dropped (never, see NeverUnparsable)
    | Extracted(frame: seq<byte>, report: Report)

  /** The specification of TryRead on the unread bytes. */
  function Extract(running: bool, pending: seq<byte>): (step: ReadStep)
    ensures step.Extracted? ==> |pending| > 0 && |step.frame| == GetSize(pending[0]) <= |pending|
                                && step.frame == pending[..|step.frame|]
  {
    if !running then NotRunning
    else if |pending| == 0 then Empty
    else
      var size := GetSize(pending[0]);
      if size == 0 then Resync
      else if size > |pending| then Incomplete
      else
        match TryParse(pending[..size])
        case Ok(Some(r)) => Extracted(pending[..size], r)
        case _ => Unparsable
  }

  /** A running receiver drops its unread bytes exactly when the first of
      them is not a known report id. */
  lemma ResyncIffUnknownId(pending: seq<byte>)
    requires |pending| > 0
    ensures Extract(true, pending) == Resync <==> GetSize(pending[0]) == 0
    ensures Extract(true, pending) != Unparsable
  {
    var size := GetSize(pending[0]);
    if size != 0 && size <= |pending| {
      TryParseKnownIds(pending[..size]);
    }
  }

  /** TryParse accepts every complete frame with a known id, so TryRead's
      branch that drops the buffer on a refused frame is never taken. */
  lemma NeverUnparsable(running: bool, pending: seq<byte>)
    ensures Extract(running, pending) != Unparsable
  {
    if running && |pending| > 0 {
      ResyncIffUnknownId(pending);
    }
  }

  /** A report handed out is a complete frame whose raw bytes are the frame. */
  lemma ExtractedIsFramed(running: bool, pending: seq<byte>)
    requires Extract(running, pending).Extracted?
    ensures Framed(Extract(running, pending).report)
    ensures Extract(running, pending).report.raw == Extract(running, pending).frame
  {
    var size := GetSize(pending[0]);
    TryParseFramed(pending[..size]);
  }

  /** Reassembly: whatever follows it, a complete frame at the head of the
      unread bytes is handed out whole and on its own, and the bytes after it
      stay unread in order. */
  lemma ExtractHeadFrame(frame: seq<byte>, rest: seq<byte>)
    requires |frame| > 0 && GetSize(frame[0]) != 0 && |frame| == GetSize(frame[0])
    ensures Extract(true, frame + rest).Extracted?
    ensures Extract(true, frame + rest).frame == frame
    ensures Some(Extract(true, frame + rest).report) == TryParse(frame).value
    ensures (frame + rest)[|Extract(true, frame + rest).frame|..] == rest
  {
    assert (frame + rest)[0] == frame[0];
    assert (frame + rest)[..|frame|] == frame;
    TryParseKnownIds(frame);
  }

  /** A frame that has only partly arrived is left where it is. */
  lemma PartialFrameWaits(part: seq<byte>)
    requires |part| > 0 && GetSize(part[0]) > |part|
    ensures Extract(true, part) == Incomplete
  {
  }

  class Receiver {
    var buffer: array<byte>
    var offset: int
    var count: int
    var running: bool
    /** Whether `_stream` holds the device's stream. */
    var streamAttached: bool

    ghost predicate Valid()
      reads this
    {
      0 <= offset <= count <= buffer.Length && 1 <= buffer.Length <= MaxInt32
    }

    /** The bytes received and not yet read. */
    function Pending(): seq<byte>
      reads this, buffer
      requires Valid()
    {
      buffer[offset..count]
    }

    function IsRunning(): bool
      reads this
    {
      running
    }

    constructor ()
      ensures Valid() && fresh(buffer)
      ensures buffer.Length == InitialCapacity && offset == 0 && count == 0
      ensures !running && !streamAttached
      ensures Pending() == []
    {
      buffer := new byte[InitialCapacity];
      offset := 0;
      count := 0;
      running := false;
      streamAttached := false;
    }

    /** Start: take the device's stream (none when the device is not open),
        refuse to start twice, then begin reading; a BeginRead that throws
        stops the receiver again. */
    method Start(deviceStreamOpen: bool, beginReadFails: bool) returns (s: Status)
      requires Valid()
      modifies this
      ensures Valid() && buffer == old(buffer) && offset == old(offset) && count == old(count)
      ensures streamAttached == (deviceStreamOpen && !(!old(running) && beginReadFails))
      ensures !deviceStreamOpen ==> s == Raised(DeviceNotOpen) && running == old(running)
      ensures deviceStreamOpen && old(running) ==> s == Raised(AlreadyRunning) && running
      ensures deviceStreamOpen && !old(running) ==> s == Done && running == !beginReadFails
    {
      streamAttached := deviceStreamOpen;
      if !deviceStreamOpen {
        return Raised(DeviceNotOpen);
      }
      if running {
        return Raised(AlreadyRunning);
      }
      running := true;
      if beginReadFails {
        Stop();
      }
      return Done;
    }

    method Stop()
      requires Valid()
      modifies this
      ensures Valid() && buffer == old(buffer) && offset == old(offset) && count == old(count)
      ensures !running && !streamAttached
    {
      running := false;
      streamAttached := false;
    }

    method ClearReceivedData()
      requires Valid()
      modifies this
      ensures Valid() && buffer == old(buffer) && running == old(running) && streamAttached == old(streamAttached)
      ensures offset == 0 && count == 0 && Pending() == []
    {
      offset := 0;
      count := 0;
    }

    /** Append `data` to the unread bytes, growing the buffer by doubling. */
    method ProvideReceivedData(data: seq<byte>) returns (s: Status)
      requires Valid()
      modifies this, buffer
      ensures Valid()
      ensures running == old(running) && streamAttached == old(streamAttached) && offset == old(offset)
      ensures s.Raised? <==> old(count) + |data| > MaxInt32 || GrownCapacity(old(buffer.Length), old(count) + |data|).None?
      ensures s.Raised? ==> s.fault == Overflow && buffer == old(buffer) && count == old(count)
                            && buffer[..] == old(buffer[..])
      ensures s.Done? ==> count == old(count) + |data|
                          && Some(buffer.Length) == GrownCapacity(old(buffer.Length), count)
                          && buffer[..count] == old(buffer[..count]) + data
                          && Pending() == old(Pending()) + data
    {
      var num := count + |data|;
      if num > MaxInt32 {
        return Raised(Overflow);
      }
      var length := buffer.Length;
      while length < num
        invariant 1 <= length <= MaxInt32
        invariant GrownCapacity(length, num) == GrownCapacity(buffer.Length, num)
        decreases num - length
      {
        if length * 2 > MaxInt32 {
          return Raised(Overflow);
        }
        length := length * 2;
      }
      if buffer.Length < length {
        var grown := new byte[length];
        forall i | 0 <= i < buffer.Length {
          grown[i] := buffer[i];
        }
        buffer := grown;
      }
      forall i | 0 <= i < |data| {
        buffer[count + i] := data[i];
      }
      count := num;
      s := Done;
      assert buffer[..count] == old(buffer[..count]) + data;
      assert Pending() == buffer[..count][offset..];
      assert old(Pending()) == old(buffer[..count])[offset..];
      assert (old(buffer[..count]) + data)[offset..] == old(buffer[..count])[offset..] + data;
    }

    /** One completed read on the stream: a read that fails, or that
        completes after Stop detached the stream (the `_stream!` dereference
        throws and the handler stops again), or that returns no bytes stops
        the receiver; otherwise the bytes are appended and the next read begun. */
    method EndRead(data: seq<byte>, readFails: bool, beginReadFails: bool) returns (s: Status)
      requires Valid()
      modifies this, buffer
      ensures Valid() && offset == old(offset)
      ensures (readFails || !old(streamAttached) || |data| == 0) ==>
                s == Done && !running && !streamAttached
                && count == old(count) && buffer == old(buffer)
                && buffer[..] == old(buffer[..]) && Pending() == old(Pending())
      ensures !readFails && old(streamAttached) && |data| > 0 ==>
                (s.Raised? <==> old(count) + |data| > MaxInt32 || GrownCapacity(old(buffer.Length), old(count) + |data|).None?)
      ensures s.Raised? ==> s.fault == Overflow && buffer == old(buffer) && count == old(count)
                            && buffer[..] == old(buffer[..]) && Pending() == old(Pending())
                            && running == old(running) && streamAttached == old(streamAttached)
      ensures !readFails && old(streamAttached) && |data| > 0 && s.Done? ==>
                count == old(count) + |data|
                && Some(buffer.Length) == GrownCapacity(old(buffer.Length), count)
                && Pending() == old(Pending()) + data
                && (running <==> old(running) && !beginReadFails)
                && (streamAttached <==> old(streamAttached) && !beginReadFails)
    {
      if readFails || !streamAttached || |data| == 0 {
        Stop();
        return Done;
      }
      s := ProvideReceivedData(data);
      if s.Done? && beginReadFails {
        Stop();
      }
    }

    /** TryRead: hand out the report at the head of the unread bytes. */
    method TryRead() returns (ok: bool, report: Option<Report>)
      requires Valid()
      modifies this
      ensures Valid() && buffer == old(buffer) && running == old(running) && streamAttached == old(streamAttached)
      ensures var step := Extract(old(running), old(Pending()));
              && (ok <==> step.Extracted?)
              && (ok ==> report == Some(step.report))
              && (!ok ==> report == None)
              && (step.NotRunning? || step.Empty? || step.Incomplete? ==> offset == old(offset) && count == old(count))
              && (step.Resync? || step.Unparsable? ==> offset == 0 && count == 0)
              && (step.Extracted? ==> Pending() == old(Pending())[|step.frame|..]
                                      && (Pending() == [] ==> offset == 0 && count == 0)
                                      && (Pending() != [] ==> offset == old(offset) + |step.frame| && count == old(count)))
    {
      report := None;
      if !running {
        return false, None;
      }
      if offset >= count {
        return false, None;
      }
      var length := GetSize(buffer[offset]);
      if length == 0 {
        ClearReceivedData();
        return false, None;
      }
      var num := offset + length;
      if num > count {
        return false, None;
      }
      var frame := buffer[offset..num];
      assert frame == old(Pending())[..length];
      var parsed := TryParse(frame);
      if !(parsed.Ok? && parsed.value.Some?) {
        ClearReceivedData();
        return false, None;
      }
      if num == count {
        ClearReceivedData();
      } else {
        offset := num;
      }
      return true, parsed.value;
    }
  }
}
