/** `CommandReader` and `ResponseReader`: the reading automaton over its own buffers and a device. */
module Readers {
  import opened Bytes
  import opened Headers
  import opened Devices
  import R = Reading

  class MessageReader {
    const kind: Kind
    const junk: Byte
    var phase: R.Phase
    var pos: nat
    var remains: nat
    var header: array<Byte>   // the inline buffer, or the larger one that replaced it
    var payload: array<Byte>

    constructor (kind: Kind, junk: Byte)
      ensures fresh(header) && fresh(payload)
      ensures header.Length == R.AUX_DATA_SIZE && Valid()
      ensures header[..] == Repeat(junk, R.AUX_DATA_SIZE)
      ensures State() == R.Fresh(kind, junk, header[..])
    {
      this.kind, this.junk := kind, junk;
      phase, pos, remains := R.Created, 0, 0;
      header := new Byte[R.AUX_DATA_SIZE](_ => junk);
      payload := new Byte[0];
    }

    /** The state of the automaton, without the positions that it no longer reads. */
    function State(): R.Reader
      reads this, header, payload
    {
      var done := phase.ReadMarker?;
      var failed := phase.ReadError?;
      R.Reader(kind, junk, phase,
               if done then 0 else if failed then UINT_MAX else pos,
               if done || failed then 0 else remains,
               header[..], payload[..])
    }

    ghost predicate Valid()
      reads this, header, payload
      ensures Valid() ==> R.AUX_DATA_SIZE <= header.Length
    {
      header != payload && R.Valid(State())
    }

    /** `configure_header`: a buffer of its own for a header that does not fit the inline one. */
    method ConfigureHeader(used: nat, full: nat)
      requires used <= R.AUX_DATA_SIZE <= header.Length && used <= full
      modifies this`header
      ensures header == old(header) || fresh(header)
      ensures header[..] == R.Configure(old(header[..]), used, full, junk)
    {
      if full > R.AUX_DATA_SIZE {
        var larger := new Byte[full](_ => junk);
        var k := 0;
        while k < used
          invariant k <= used && header == old(header) && header[..] == old(header[..])
          invariant forall i :: 0 <= i < k ==> larger[i] == header[i]
          invariant forall i :: k <= i < full ==> larger[i] == junk
        {
          larger[k] := header[k];
          k := k + 1;
        }
        header := larger;
      }
    }

    /** The fields are those of `r`, except that `bytes` have arrived in the header buffer. */
    ghost predicate HeaderArrived(r: R.Reader, bytes: seq<Byte>)
      reads this, header, payload
    {
      && header != payload && R.Valid(r) && 0 < |bytes| <= R.Wanted(r)
      && (r.phase.ReadDescriptor? || r.phase.ReadSize? || r.phase.ReadHeader?)
      && kind == r.kind && junk == r.junk && phase == r.phase && payload[..] == r.payload
      && (!r.phase.ReadDescriptor? ==> pos == r.pos && remains == r.remains)
      && header[..] == Overwrite(r.header, if r.phase.ReadDescriptor? then 0 else r.pos, bytes)
    }

    /** What the case `READ_DESCRIPTOR` does with the byte that has arrived. */
    method AcceptDescriptor(ghost r: R.Reader, ghost bytes: seq<Byte>)
      requires r.phase.ReadDescriptor? && HeaderArrived(r, bytes)
      modifies this`phase, this`pos, this`remains, this`header
      ensures header != payload && (header == old(header) || fresh(header))
      ensures State() == R.Receive(r, bytes)
    {
      assert header[..] == r.header[0 := bytes[0]];
      var b := header[0];
      pos := 1;
      remains := SizeLength(b);
      if remains != 0 {
        phase := R.ReadSize;
      } else if kind.Command? {
        var full := SizelessHeaderSize(kind, b);
        ConfigureHeader(pos, full);
        remains := full - pos;
        phase := R.ReadHeader;
      } else if LowBits(b) == 0 {
        phase := R.ReadMarker;
      } else {
        phase, pos, remains := R.ReadError, UINT_MAX, 0;
      }
    }

    /** What the case `READ_HEADER_SIZE_BYTES` does with `n` bytes that have arrived. */
    method AcceptSize(n: nat, ghost r: R.Reader, ghost bytes: seq<Byte>)
      requires r.phase.ReadSize? && HeaderArrived(r, bytes) && n == |bytes|
      modifies this`phase, this`pos, this`remains, this`header
      ensures header != payload && (header == old(header) || fresh(header))
      ensures State() == R.Receive(r, bytes)
    {
      hide Repeat, Overwrite, HeaderSize, SizeLength;
      pos := pos + n;
      if n == remains {
        var full := HeaderSize(kind, header[..]);
        if full <= pos {
          phase, pos, remains := R.ReadError, UINT_MAX, 0;
        } else {
          ConfigureHeader(pos, full);
          remains := full - pos;
          phase := R.ReadHeader;
        }
      } else {
        remains := remains - n;
      }
    }

    /** What the case `READ_HEADER_BYTES` does with `n` bytes that have arrived. */
    method AcceptHeader(n: nat, ghost r: R.Reader, ghost bytes: seq<Byte>)
      requires r.phase.ReadHeader? && HeaderArrived(r, bytes) && n == |bytes|
      modifies this`phase, this`pos, this`remains, this`payload
      ensures header != payload && (payload == old(payload) || fresh(payload))
      ensures State() == R.Receive(r, bytes)
    {
      if n == remains {
        var info := GetPayloadInfo(kind, header[..], payload[..]);
        if info.PayloadInfo? && info.meta.size > 0 {
          payload := new Byte[info.meta.size](_ => junk);
          assert payload[..] == Repeat(junk, info.meta.size);
          pos, remains := 0, info.meta.size;
          phase := R.ReadPayload;
        } else if info.BadPayload? {
          phase := R.ReadError;
        } else {
          phase := R.ReadMarker;
        }
      } else {
        pos, remains := pos + n, remains - n;
      }
    }

    /** What the case `READ_PAYLOAD_BYTES` does with `n` bytes that have arrived. */
    method AcceptPayload(n: nat, ghost r: R.Reader, ghost bytes: seq<Byte>)
      requires R.Valid(r) && r.phase.ReadPayload? && 0 < |bytes| == n <= r.remains
      requires kind == r.kind && junk == r.junk && phase == r.phase && pos == r.pos && remains == r.remains
      requires header[..] == r.header && payload[..] == Overwrite(r.payload, r.pos, bytes)
      modifies this`phase, this`pos, this`remains
      ensures State() == R.Receive(r, bytes)
    {
      if n == remains {
        phase := R.ReadMarker;
      } else {
        pos, remains := pos + n, remains - n;
      }
    }

    /** The device call of a phase that fills the header, and what the automaton does with its bytes. */
    method ReadHeaderPart(device: InputDevice) returns (result: IoResult, n: nat)
      requires Valid() && (phase.ReadDescriptor? || phase.ReadSize? || phase.ReadHeader?)
      modifies this, header, device
      ensures Valid() && (header == old(header) || fresh(header)) && (payload == old(payload) || fresh(payload))
      ensures PartRead(old(State()), old(device.State()), State(), device.State(), result, n)
    {
      hide R.Receive, Take;
      ghost var r, t := State(), Take(device.State(), R.Wanted(State()));
      if phase.ReadDescriptor? {
        result, n := device.ReadBytes(header, 0, 1);
        if result.Ok? {
          AcceptDescriptor(r, t.bytes);
        } else {
          assert Overwrite(r.header, 0, []) == r.header;
        }
      } else {
        result, n := device.ReadBytes(header, pos, remains);
        if result.Ok? {
          if phase.ReadSize? {
            AcceptSize(n, r, t.bytes);
          } else {
            AcceptHeader(n, r, t.bytes);
          }
        } else {
          assert Overwrite(r.header, pos, []) == r.header;
        }
      }
    }

    method ReadPayloadPart(device: InputDevice) returns (result: IoResult, n: nat)
      requires Valid() && phase.ReadPayload?
      modifies this`phase, this`pos, this`remains, payload, device
      ensures Valid()
      ensures PartRead(old(State()), old(device.State()), State(), device.State(), result, n)
    {
      hide R.Receive, Take;
      ghost var r, t := State(), Take(device.State(), R.Wanted(State()));
      result, n := device.ReadBytes(payload, pos, remains);
      if result.Ok? {
        AcceptPayload(n, r, t.bytes);
      } else {
        assert Overwrite(r.payload, pos, []) == r.payload;
      }
    }

    method ReadMarkerPart(device: InputDevice) returns (result: IoResult, n: nat)
      requires Valid() && phase.ReadMarker? && HasMarker(header[0])
      modifies this`phase, this`pos, this`remains, device
      ensures Valid()
      ensures PartRead(old(State()), old(device.State()), State(), device.State(), result, n)
    {
      hide Take;
      ghost var r, t := State(), Take(device.State(), R.Wanted(State()));
      var marker := new Byte[1];
      result, n := device.ReadBytes(marker, 0, 1);
      if result.Ok? {
        assert marker[..][0] == t.bytes[0];
        if marker[0] == R.INTEGRITY_MARKER {
          phase, pos, remains := R.ReadDone, UINT_MAX, 0;
        } else {
          phase := R.ReadError;
        }
      }
    }

    /** One turn of the automaton; `more` tells whether `read` goes on. */
    method Turn(device: InputDevice) returns (result: IoResult, n: nat, more: bool)
      requires Valid()
      modifies this, header, payload, device
      ensures Valid() && (header == old(header) || fresh(header)) && (payload == old(payload) || fresh(payload))
      ensures R.Read(old(State()), old(device.State()))
              == if more then Later(R.Read(State(), device.State()), n) else R.Call(State(), device.State(), n, result)
      ensures more ==> R.Rank(phase) < old(R.Rank(phase)) || (phase == old(phase) && remains < old(remains))
    {
      hide R.Receive, Take, R.Valid, R.Read, PartRead, HasMarker;
      ghost var r, source := State(), device.State();
      result, n, more := Ok, 0, false;
      match phase {
        case Created =>
          phase := R.ReadDescriptor;
          ReadSettles(r, source);
          more := true;
        case ReadPayload =>
          result, n := ReadPayloadPart(device);
          result, more := Resume(r, source, device, result, n, true);
        case ReadMarker =>
          if HasMarker(header[0]) {
            result, n := ReadMarkerPart(device);
            result, more := Resume(r, source, device, result, n, false);
          } else {
            phase, pos, remains := R.ReadDone, UINT_MAX, 0;
            ReadSettles(r, source);
          }
        case ReadDone =>
          phase, pos, remains := R.ReadError, UINT_MAX, 0;
          ReadRefuses(r, source);
          result := Error;
        case ReadError =>
          pos, remains := UINT_MAX, 0;
          ReadRefuses(r, source);
          result := Error;
        case _ =>
          result, n := ReadHeaderPart(device);
          result, more := Resume(r, source, device, result, n, false);
      }
    }

    /** What follows a device call that led from `r` to the current state. */
    method Resume(ghost r: R.Reader, ghost source: Source, device: InputDevice, outcome: IoResult, ghost n: nat,
                  inPayload: bool)
      returns (result: IoResult, more: bool)
      requires Valid() && R.Valid(r) && PartRead(r, source, State(), device.State(), outcome, n)
      requires r.kind == kind && inPayload == r.phase.ReadPayload?
      modifies this`phase
      ensures Valid()
      ensures R.Read(r, source)
              == if more then Later(R.Read(State(), device.State()), n) else R.Call(State(), device.State(), n, result)
      ensures more ==>
                && State() == old(State())
                && (R.Rank(phase) < R.Rank(r.phase) || (phase == r.phase && State().remains < r.remains))
    {
      hide R.Receive, Take, R.Valid, R.Read, PartRead;
      result := outcome;
      more := outcome.Ok? && !phase.ReadDone? && !phase.ReadError?
              && !(kind.Response? && inPayload && phase.ReadPayload?);
      if more {
        PartContinues(r, source, State(), device.State(), n);
      } else {
        PartStops(r, source, State(), device.State(), outcome, n);
        result := Conclude(outcome);
      }
    }

    /** `read`: the automaton runs until the message is complete or something forbids it to go on. */
    method Read(device: InputDevice) returns (result: IoResult, total: nat)
      requires Valid()
      modifies this, header, payload, device
      ensures Valid() && (header == old(header) || fresh(header)) && (payload == old(payload) || fresh(payload))
      ensures R.Call(State(), device.State(), total, result) == R.Read(old(State()), old(device.State()))
    {
      hide R.Valid, R.Read;
      total := 0;
      ghost var whole := R.Read(State(), device.State());
      while true
        invariant Valid() && (header == old(header) || fresh(header)) && (payload == old(payload) || fresh(payload))
        invariant whole == Later(R.Read(State(), device.State()), total)
        decreases R.Rank(phase), remains
      {
        var n, more;
        result, n, more := Turn(device);
        total := total + n;
        if !more {
          return;
        }
      }
    }

    /** How a call of `read` returns after its last device call. */
    method Conclude(outcome: IoResult) returns (result: IoResult)
      requires Valid() && (!outcome.Ok? ==> !R.Finished(State()))
      modifies this`phase
      ensures result == (if old(phase).ReadError? then Error else if old(phase).ReadDone? then Ok
                         else if outcome.Ok? then Retry else outcome)
      ensures State() == (if outcome.Error? || outcome.Eof? then R.Rejected(old(State())) else old(State()))
      ensures Valid()
    {
      result := outcome;
      if outcome.Error? || outcome.Eof? {
        phase := R.ReadError;
      } else if phase.ReadError? {
        result := Error;
      } else if outcome.Ok? && !phase.ReadDone? {
        result := Retry;
      }
    }
  }

  /** The call `c` preceded by deliveries of `n` bytes. */
  function Later(c: R.Call, n: nat): R.Call {
    c.(total := n + c.total)
  }

  /** One device call: `r` becomes `s` by what the call delivers. */
  ghost predicate PartRead(r: R.Reader, source: Source, s: R.Reader, next: Source, result: IoResult, n: nat)
    requires R.Valid(r)
  {
    && R.Wanted(r) > 0
    && var t := Take(source, R.Wanted(r));
       && result == t.result && n == |t.bytes| && next == t.source
       && s == if t.result.Ok? then R.Receive(r, t.bytes) else r
  }

  lemma {:induction false} ReadSettles(r: R.Reader, source: Source)
    requires R.Valid(r) && !R.Finished(r) && R.Settle(r) != r
    ensures var s := R.Settle(r);
            R.Read(r, source) == if s.phase.ReadDone? then R.Call(s, source, 0, Ok) else R.Read(s, source)
  {
    hide R.Receive;
  }

  lemma {:induction false} ReadRefuses(r: R.Reader, source: Source)
    requires R.Valid(r) && R.Finished(r)
    ensures R.Read(r, source) == R.Call(R.Rejected(r), source, 0, Error)
  {
    hide R.Receive;
  }

  lemma {:induction false} PartContinues(r: R.Reader, source: Source, s: R.Reader, next: Source, n: nat)
    requires R.Valid(r) && PartRead(r, source, s, next, Ok, n) && !R.Finished(s) && !R.StopsEarly(r, s)
    ensures R.Valid(s) && R.Read(r, source) == Later(R.Read(s, next), n)
    ensures R.Rank(s.phase) < R.Rank(r.phase) || (s.phase == r.phase && s.remains < r.remains)
  {
    var bytes := Take(source, R.Wanted(r)).bytes;
    R.ReceiveProgresses(r, bytes);
    hide R.Receive, Take;
    assert R.Settle(r) == r;
  }

  /** The call returns after one device call when this fails, or ends the message, or delivers part of a response payload. */
  lemma {:induction false} PartStops(r: R.Reader, source: Source, s: R.Reader, next: Source,
                                     result: IoResult, n: nat)
    requires R.Valid(r) && PartRead(r, source, s, next, result, n)
    requires result.Ok? ==> R.Finished(s) || R.StopsEarly(r, s)
    ensures !result.Ok? ==> !R.Finished(s)
    ensures var c := R.Read(r, source);
            && c.source == next && c.total == n
            && c.reader == (if result.Error? || result.Eof? then R.Rejected(s) else s)
            && c.result == (if s.phase.ReadError? then Error else if s.phase.ReadDone? then Ok
                            else if result.Ok? then Retry else result)
  {
    hide R.Receive, Take;
    assert R.Settle(r) == r;
  }
}
