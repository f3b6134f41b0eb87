/** `CommandWriter` and `ResponseWriter`: the writing automaton over its own buffers and a device. */
module Writers {
  import opened Bytes
  import opened Headers
  import opened Devices
  import W = Writing

  class MessageWriter {
    const kind: Kind
    var header: array<Byte>
    var payload: array<Byte>
    var phase: W.Phase
    var pos: nat
    var remains: nat

    /** The writer takes over buffers that the builders have filled, in the ready state. */
    constructor (kind: Kind, header: array<Byte>, payload: array<Byte>)
      requires HasSizeField(header[..]) && 0 < HeaderSize(kind, header[..]) <= header.Length
      ensures this.header == header && this.payload == payload && Valid()
      ensures State() == W.Writer(kind, header[..], payload[..], W.WriteReady, 0, 0)
    {
      this.kind, this.header, this.payload := kind, header, payload;
      phase, pos, remains := W.WriteReady, 0, 0;
    }

    /** The state of the automaton, without the positions that it does not read. */
    function State(): W.Writer
      reads this, header, payload
    {
      var live := phase.WriteHeader? || phase.WritePayload? || phase.WriteDone?;
      W.Writer(kind, header[..], payload[..], phase, if live then pos else 0, if live then remains else 0)
    }

    ghost predicate Valid()
      reads this, header, payload
      ensures Valid() ==> 0 < header.Length
    {
      W.Valid(State())
    }

    method WriteHeaderPart(device: OutputDevice) returns (result: IoResult, n: nat)
      requires Valid() && phase.WriteHeader?
      modifies this`phase, this`pos, this`remains, device
      ensures Valid()
      ensures PartWritten(old(State()), old(device.State()), State(), device.State(), result, n)
    {
      hide Give, HeaderSize, HasMarker;
      result, n := device.WriteBytes(header, pos, remains);
      if result.Ok? {
        if n < remains {
          pos, remains := pos + n, remains - n;
        } else {
          remains := payload.Length;
          if remains > 0 {
            pos, phase := 0, W.WritePayload;
          } else {
            phase := W.WriteMarker;
          }
        }
      }
    }

    method WritePayloadPart(device: OutputDevice) returns (result: IoResult, n: nat)
      requires Valid() && phase.WritePayload?
      modifies this`phase, this`pos, this`remains, device
      ensures Valid()
      ensures PartWritten(old(State()), old(device.State()), State(), device.State(), result, n)
    {
      hide Give, HeaderSize, HasMarker;
      result, n := device.WriteBytes(payload, pos, remains);
      if result.Ok? {
        if n < remains {
          pos, remains := pos + n, remains - n;
        } else {
          phase := W.WriteMarker;
        }
      }
    }

    method WriteMarkerPart(device: OutputDevice) returns (result: IoResult, n: nat)
      requires Valid() && phase.WriteMarker? && HasMarker(header[0])
      modifies this`phase, this`pos, this`remains, device
      ensures Valid()
      ensures PartWritten(old(State()), old(device.State()), State(), device.State(), result, n)
    {
      hide Give, HeaderSize, HasMarker;
      var marker := new Byte[1](_ => 0xC3);
      assert marker[0..1] == [0xC3];
      result, n := device.WriteBytes(marker, 0, 1);
      if result.Ok? {
        phase, pos, remains := W.WriteDone, UINT_MAX, 0;
      }
    }

    /** One turn of the automaton; `more` tells whether `write` goes on. */
    method Turn(device: OutputDevice) returns (result: IoResult, n: nat, more: bool)
      requires Valid()
      modifies this`phase, this`pos, this`remains, device
      ensures Valid()
      ensures W.Write(old(State()), old(device.State()))
              == if more then Later(W.Write(State(), device.State()), n) else W.Call(State(), device.State(), n, result)
      ensures more ==> W.Rank(phase) < old(W.Rank(phase)) || (phase == old(phase) && remains < old(remains))
    {
      hide Give, W.Advance, W.Offered, W.Write, PartWritten;
      ghost var w, sink := State(), device.State();
      result, n, more := Ok, 0, false;
      if phase.WriteReady? {
        pos, remains := 0, HeaderSize(kind, header[..]);
        phase := W.WriteHeader;
        WriteSettles(w, sink);
        more := true;
      } else if phase.WriteDone? {
        phase, pos, remains := W.WriteError, UINT_MAX, 0;
        WriteRefuses(w, sink);
        result := Error;
      } else if phase.WriteError? {
        WriteRefuses(w, sink);
        result := Error;
      } else if phase.WriteMarker? && !HasMarker(header[0]) {
        phase, pos, remains := W.WriteDone, UINT_MAX, 0;
        WriteSettles(w, sink);
      } else {
        if phase.WriteHeader? {
          result, n := WriteHeaderPart(device);
        } else if phase.WritePayload? {
          result, n := WritePayloadPart(device);
        } else {
          result, n := WriteMarkerPart(device);
        }
        PartSteps(w, sink, State(), device.State(), result, n);
        more := result.Ok? && !phase.WriteDone?;
        if result.Error? || result.Eof? {
          phase := W.WriteError;
        }
      }
    }

    /** `write`: the automaton runs until everything is sent or something forbids it to go on. */
    method Write(device: OutputDevice) returns (result: IoResult, total: nat)
      requires Valid()
      modifies this`phase, this`pos, this`remains, device
      ensures Valid()
      ensures W.Call(State(), device.State(), total, result) == W.Write(old(State()), old(device.State()))
    {
      hide W.Write, W.Valid;
      total := 0;
      ghost var whole := W.Write(State(), device.State());
      while true
        invariant Valid()
        invariant whole == Later(W.Write(State(), device.State()), total)
        decreases W.Rank(phase), remains
      {
        var n, more;
        result, n, more := Turn(device);
        total := total + n;
        if !more {
          return;
        }
      }
    }

    /** `io_rewind`: everything will be sent again. */
    method Rewind()
      requires Valid()
      modifies this`phase
      ensures Valid()
      ensures State() == old(State()).(phase := W.WriteReady, pos := 0, remains := 0)
    {
      phase := W.WriteReady;
    }

    /** `set_header_ulong_at`. */
    method SetHeaderUlong(at: nat, n: nat)
      requires at + HASH_SIZE <= header.Length
      modifies header
      ensures header[..] == Overwrite(old(header[..]), at, Le(n, HASH_SIZE))
    {
      var bytes := Le(n, HASH_SIZE);
      hide Le;
      ghost var was := header[..];
      var k := 0;
      while k < HASH_SIZE
        invariant k <= HASH_SIZE
        invariant header[..] == Overwrite(was, at, bytes[..k])
      {
        header[at + k] := bytes[k];
        assert bytes[..k + 1] == bytes[..k] + [bytes[k]];
        k := k + 1;
      }
      assert bytes[..HASH_SIZE] == bytes;
    }

    /** `set_command_pwd_hash`: replaces the password of a command in place if its size allows it. */
    method SetPassword(level: nat, hash: nat) returns (ok: bool)
      requires Valid() && kind.Command? && HasLead(header[..]) && header != payload
      requires level < 4 && hash < 0x1_0000_0000_0000_0000
      modifies header
      ensures Valid()
      ensures ok == Headers.SetPassword(old(header[..]), level, hash).Some?
      ensures header[..] == if ok then Headers.SetPassword(old(header[..]), level, hash).value else old(header[..])
    {
      hide Le, HeaderSize, Overwrite;
      ghost var was := header[..];
      if Headers.SetPassword(was, level, hash).Some? {
        SetPasswordIsSeen(was, level, hash);
      }
      var desc := header[0];
      var auth := LowBits(desc);
      if auth != level {
        if auth == 0 || level == 0 {
          return false;
        }
        header[0] := desc - auth + level;
      }
      DescriptorKeepsFields(desc, level);
      assert header[..] == old(header[..])[0 := desc - auth + level];
      if level != 0 {
        SetHeaderUlong(SizeLength(header[0]) + 2, hash);
      }
      return true;
    }
  }

  function Later(c: W.Call, n: nat): W.Call {
    c.(total := n + c.total)
  }

  /** One device call: `w` becomes `s` by what the call accepts. */
  ghost predicate PartWritten(w: W.Writer, sink: Sink, s: W.Writer, next: Sink, result: IoResult, n: nat)
    requires W.Valid(w) && !W.Finished(w) && W.Settle(w) == w
  {
    var g := Give(sink, W.Offered(w));
    && result == g.result && n == g.count && next == g.sink
    && s == if g.result.Ok? then W.Advance(w, n) else w
  }

  lemma {:induction false} WriteSettles(w: W.Writer, sink: Sink)
    requires W.Valid(w) && !W.Finished(w) && W.Settle(w) != w
    ensures var s := W.Settle(w);
            W.Write(w, sink) == if s.phase.WriteDone? then W.Call(s, sink, 0, Ok) else W.Write(s, sink)
  {
    hide W.Advance, Give;
  }

  lemma {:induction false} WriteRefuses(w: W.Writer, sink: Sink)
    requires W.Valid(w) && W.Finished(w)
    ensures W.Write(w, sink) == W.Call(W.Broken(w), sink, 0, Error)
  {
    hide W.Advance, Give;
  }

  lemma {:induction false} PartSteps(w: W.Writer, sink: Sink, s: W.Writer, next: Sink, result: IoResult, n: nat)
    requires W.Valid(w) && !W.Finished(w) && W.Settle(w) == w && PartWritten(w, sink, s, next, result, n)
    ensures W.Valid(s) && (!result.Ok? ==> s == w && n == 0)
    ensures W.Write(w, sink) ==
            if result.Error? || result.Eof? then W.Call(W.Broken(w), next, 0, result)
            else if result.Retry? || s.phase.WriteDone? then W.Call(s, next, n, result)
            else Later(W.Write(s, next), n)
    ensures result.Ok? ==> W.Rank(s.phase) < W.Rank(w.phase) || (s.phase == w.phase && s.remains < w.remains)
  {
    if result.Ok? {
      W.AdvanceCounts(w, n);
    }
    hide W.Advance, W.Offered;
  }
}
