/**
 The resumable writers of commands and responses (`CommandWriter::write`, `ResponseWriter::write`) as a
 state machine over device calls: what is on the wire after any run, with failures and rewinds.
 */
module Writing {
  import opened Bytes
  import opened Headers
  import opened Devices
  import opened Packets

  datatype Phase =
    | WriteReady
    | WriteHeader
    | WritePayload
    | WriteMarker
    | WriteDone
    | WriteError

  /** `rw_pos` and `rw_remains` are 0 in the phases that do not read them. */
  datatype Writer = Writer(kind: Kind, header: seq<Byte>, payload: seq<Byte>, phase: Phase, pos: nat, remains: nat)

  predicate Finished(w: Writer) {
    w.phase.WriteDone? || w.phase.WriteError?
  }

  predicate Valid(w: Writer) {
    && HasSizeField(w.header) && 0 < HeaderSize(w.kind, w.header) <= |w.header|
    && match w.phase
       case WriteHeader => 0 < w.remains && w.pos + w.remains == HeaderSize(w.kind, w.header)
       case WritePayload => 0 < w.remains && w.pos + w.remains == |w.payload|
       case WriteDone => w.pos == UINT_MAX && w.remains == 0
       case _ => w.pos == 0 && w.remains == 0
  }

  /** Everything that the writer has to send. */
  function Message(w: Writer): seq<Byte>
    requires Valid(w)
  {
    w.header[..HeaderSize(w.kind, w.header)] + w.payload + MarkerBytes(w.header[0])
  }

  /** How much of it has been sent, as the state shows it. */
  function Sent(w: Writer): nat
    requires Valid(w) && !w.phase.WriteError?
  {
    match w.phase
    case WriteReady => 0
    case WriteHeader => w.pos
    case WritePayload => HeaderSize(w.kind, w.header) + w.pos
    case WriteMarker => HeaderSize(w.kind, w.header) + |w.payload|
    case WriteDone => |Message(w)|
  }

  /** The transitions that need no device call. */
  function Settle(w: Writer): (s: Writer)
    requires Valid(w)
    ensures Valid(s) && Message(s) == Message(w)
  {
    match w.phase
    case WriteReady => w.(phase := WriteHeader, pos := 0, remains := HeaderSize(w.kind, w.header))
    case WriteMarker => if HasMarker(w.header[0]) then w else Completed(w)
    case _ => w
  }

  function Completed(w: Writer): Writer {
    w.(phase := WriteDone, pos := UINT_MAX, remains := 0)
  }

  function Broken(w: Writer): Writer {
    w.(phase := WriteError, pos := 0, remains := 0)
  }

  /** The bytes that the next device call is given. */
  function Offered(w: Writer): (s: seq<Byte>)
    requires Valid(w) && !Finished(w) && Settle(w) == w
    ensures s != []
  {
    match w.phase
    case WriteHeader => w.header[w.pos..w.pos + w.remains]
    case WritePayload => w.payload[w.pos..w.pos + w.remains]
    case WriteMarker => [0xC3]
  }

  /** Effect of a device call that accepts `n` bytes. */
  function Advance(w: Writer, n: nat): (s: Writer)
    requires Valid(w) && !Finished(w) && Settle(w) == w && 0 < n <= |Offered(w)|
    ensures Valid(s)
  {
    match w.phase
    case WriteHeader =>
      if n < w.remains then w.(pos := w.pos + n, remains := w.remains - n)
      else if w.payload != [] then w.(phase := WritePayload, pos := 0, remains := |w.payload|)
      else w.(phase := WriteMarker, pos := 0, remains := 0)
    case WritePayload =>
      if n < w.remains then w.(pos := w.pos + n, remains := w.remains - n)
      else w.(phase := WriteMarker, pos := 0, remains := 0)
    case WriteMarker => Completed(w)
  }

  function Rank(p: Phase): nat {
    match p
    case WriteReady => 4
    case WriteHeader => 3
    case WritePayload => 2
    case WriteMarker => 1
    case _ => 0
  }

  datatype Call = Call(writer: Writer, sink: Sink, total: nat, result: IoResult)

  /** `write`: device calls until everything is sent, or the device forbids more. */
  function Write(w: Writer, sink: Sink): (c: Call)
    requires Valid(w)
    ensures Valid(c.writer)
    decreases Rank(w.phase), w.remains
  {
    if Finished(w) then Call(Broken(w), sink, 0, Error)
    else if Settle(w) != w then
      var s := Settle(w);
      if s.phase.WriteDone? then Call(s, sink, 0, Ok) else Write(s, sink)
    else
      var g := Give(sink, Offered(w));
      match g.result
      case Retry => Call(w, g.sink, 0, Retry)
      case Eof => Call(Broken(w), g.sink, 0, Eof)
      case Error => Call(Broken(w), g.sink, 0, Error)
      case Ok =>
        var s := Advance(w, g.count);
        if s.phase.WriteDone? then Call(s, g.sink, g.count, Ok)
        else
          var c := Write(s, g.sink);
          c.(total := g.count + c.total)
  }

  // ---------------------------------------------------------------------------------------------
  // What a call puts on the wire
  // ---------------------------------------------------------------------------------------------

  /** Offered bytes are the next ones of the message, and advancing moves past exactly the accepted ones. */
  lemma {:induction false} OfferedIsNext(w: Writer)
    requires Valid(w) && !Finished(w) && Settle(w) == w
    ensures Sent(w) + |Offered(w)| <= |Message(w)|
    ensures Message(w)[Sent(w)..Sent(w) + |Offered(w)|] == Offered(w)
  {
    var m := Message(w);
    var h := w.header[..HeaderSize(w.kind, w.header)];
    match w.phase {
      case WriteHeader => assert m[w.pos..|h|] == h[w.pos..];
      case WritePayload => assert m[|h| + w.pos..|h| + |w.payload|] == w.payload[w.pos..];
      case WriteMarker => assert m[|h| + |w.payload|..] == MarkerBytes(w.header[0]);
    }
  }

  lemma {:induction false} AdvanceCounts(w: Writer, n: nat)
    requires Valid(w) && !Finished(w) && Settle(w) == w && 0 < n <= |Offered(w)|
    ensures var s := Advance(w, n);
            && Message(s) == Message(w) && !s.phase.WriteError? && Sent(s) == Sent(w) + n
            && (s.phase.WriteDone? ==> Sent(s) == |Message(w)|)
            && (Rank(s.phase) < Rank(w.phase) || (s.phase == w.phase && s.remains < w.remains))
  {
  }

  lemma {:induction false} SettleCounts(w: Writer)
    requires Valid(w) && !w.phase.WriteError?
    ensures !Settle(w).phase.WriteError? && Sent(Settle(w)) == Sent(w)
  {
  }

  /** A call extends the output by the bytes of the message that come next. */
  ghost predicate Extends(w: Writer, sink: Sink, c: Call)
    requires Valid(w) && !w.phase.WriteError?
  {
    && Valid(c.writer) && Message(c.writer) == Message(w)
    && Sent(w) + c.total <= |Message(w)|
    && c.sink.output == sink.output + Message(w)[Sent(w)..Sent(w) + c.total]
    && match c.result
       case Ok => c.writer.phase.WriteDone? && Sent(w) + c.total == |Message(w)|
       case Retry => !Finished(c.writer) && Settle(c.writer) == c.writer && Sent(c.writer) == Sent(w) + c.total
       case _ => c.writer.phase.WriteError?
  }

  lemma {:induction false} ExtendsAfter(w: Writer, s: Writer, sink: Sink, next: Sink, n: nat, c: Call)
    requires Valid(w) && Valid(s) && !w.phase.WriteError? && !s.phase.WriteError?
    requires Message(s) == Message(w) && Sent(s) == Sent(w) + n <= |Message(w)|
    requires next.output == sink.output + Message(w)[Sent(w)..Sent(w) + n]
    requires Extends(s, next, c)
    ensures Extends(w, sink, c.(total := n + c.total))
  {
    hide Message, Sent, Valid, Settle, Finished;
    OutputGrows(sink.output, Message(w), Sent(w), n, c.total);
  }

  lemma {:induction false} OutputGrows(output: seq<Byte>, m: seq<Byte>, at: nat, n: nat, k: nat)
    requires at + n + k <= |m|
    ensures output + m[at..at + n] + m[at + n..at + n + k] == output + m[at..at + (n + k)]
  {
    assert m[at..at + n] + m[at + n..at + n + k] == m[at..at + (n + k)];
  }

  lemma {:induction false} ExtendsStop(w: Writer, sink: Sink, c: Call)
    requires Valid(w) && !Finished(w) && Settle(w) == w
    requires var g := Give(sink, Offered(w));
             && c.sink == g.sink && c.total == g.count && c.result == g.result
             && match c.result
                case Ok => c.writer == Advance(w, g.count) && c.writer.phase.WriteDone?
                case Retry => c.writer == w
                case _ => c.writer == Broken(w)
    ensures Extends(w, sink, c)
  {
    hide Advance, Give, Offered;
    var g := Give(sink, Offered(w));
    OfferedIsNext(w);
    var m, a, b := Message(w), Sent(w), Sent(w) + |Offered(w)|;
    assert m[a..b][..g.count] == m[a..a + g.count];
    if c.result.Ok? {
      AdvanceCounts(w, g.count);
    }
  }

  /** Every call of `write`, from any state and under any schedule. */
  lemma {:induction false} WriteExtends(w: Writer, sink: Sink)
    requires Valid(w) && !Finished(w)
    ensures Extends(w, sink, Write(w, sink))
    decreases Rank(w.phase), w.remains
  {
    if Settle(w) == w {
      GiveExtends(w, sink);
    } else {
      SettleCounts(w);
      var s := Settle(w);
      if s.phase.WriteDone? {
        assert Sent(w) == |Message(w)|;
      } else {
        WriteExtends(s, sink);
      }
    }
  }

  lemma {:induction false} GiveExtends(w: Writer, sink: Sink)
    requires Valid(w) && !Finished(w) && Settle(w) == w
    ensures Extends(w, sink, Write(w, sink))
    decreases Rank(w.phase), w.remains, 0
  {
    hide Advance, Offered, Message, Sent, Extends, Give, Valid, Settle;
    var g := Give(sink, Offered(w));
    if g.result.Ok? && !Advance(w, g.count).phase.WriteDone? {
      AdvanceCounts(w, g.count);
      var s := Advance(w, g.count);
      WriteExtends(s, g.sink);
      OfferedIsNext(w);
      var m, a, b := Message(w), Sent(w), Sent(w) + |Offered(w)|;
      assert m[a..b][..g.count] == m[a..a + g.count];
      ExtendsAfter(w, s, sink, g.sink, g.count, Write(s, g.sink));
    } else {
      ExtendsStop(w, sink, Write(w, sink));
    }
  }

  // ---------------------------------------------------------------------------------------------
  // Runs with failures and rewinds
  // ---------------------------------------------------------------------------------------------

  datatype Event = CallWrite | Rewind

  /** `since` are the bytes delivered since the last rewind, `counted` the sum of `ntotal` since then. */
  datatype Tape = Tape(writer: Writer, sink: Sink, since: seq<Byte>, counted: nat)

  function Start(w: Writer, sink: Sink): Tape {
    Tape(w, sink, [], 0)
  }

  /** `io_rewind` restarts the writer from any state; `write` may be called in any state. */
  function Step(t: Tape, e: Event): (u: Tape)
    requires Valid(t.writer)
    ensures Valid(u.writer)
  {
    match e
    case Rewind => Tape(t.writer.(phase := WriteReady, pos := 0, remains := 0), t.sink, [], 0)
    case CallWrite =>
      var c := Write(t.writer, t.sink);
      var new_ := if |t.sink.output| <= |c.sink.output| then c.sink.output[|t.sink.output|..] else [];
      Tape(c.writer, c.sink, t.since + new_, t.counted + c.total)
  }

  function Run(t: Tape, events: seq<Event>): (u: Tape)
    requires Valid(t.writer)
    ensures Valid(u.writer)
    decreases |events|
  {
    if events == [] then t else Run(Step(t, events[0]), events[1..])
  }

  predicate Sound(t: Tape) {
    && Valid(t.writer)
    && t.since <= Message(t.writer)
    && t.counted == |t.since|
    && (!t.writer.phase.WriteError? ==> Sent(t.writer) == |t.since|)
  }

  lemma {:induction false} WriteIsSound(t: Tape)
    requires Sound(t) && !Finished(t.writer)
    ensures Sound(Step(t, CallWrite)) && Message(Step(t, CallWrite).writer) == Message(t.writer)
  {
    hide Write, Sent, Message, Valid, Settle;
    WriteExtends(t.writer, t.sink);
    var c := Write(t.writer, t.sink);
    var m, k := Message(t.writer), |t.since|;
    assert c.sink.output[|t.sink.output|..] == m[k..k + c.total];
    assert m[..k] + m[k..k + c.total] == m[..k + c.total];
    if c.result.Ok? {
      DoneSentAll(c.writer);
    }
  }

  lemma {:induction false} DoneSentAll(w: Writer)
    requires Valid(w) && w.phase.WriteDone?
    ensures Sent(w) == |Message(w)|
  {
  }

  lemma {:induction false} StepIsSound(t: Tape, e: Event)
    requires Sound(t)
    ensures Sound(Step(t, e)) && Message(Step(t, e).writer) == Message(t.writer)
  {
    if e.CallWrite? && !Finished(t.writer) {
      WriteIsSound(t);
    }
  }

  /**
   In every run of calls, failures and rewinds, the bytes sent since the last rewind are a prefix of
   header, payload and marker, they are all of it when the writer is done, and the sizes reported since
   then add up to their number.
   */
  lemma {:induction false} RunSendsPrefix(w: Writer, sink: Sink, events: seq<Event>)
    requires Valid(w) && w.phase.WriteReady?
    ensures var t := Run(Start(w, sink), events);
            && t.since <= Message(w)
            && t.counted == |t.since|
            && (t.writer.phase.WriteDone? ==> t.since == Message(w))
  {
    RunIsSound(Start(w, sink), events);
  }

  lemma {:induction false} RunIsSound(t: Tape, events: seq<Event>)
    requires Sound(t)
    ensures Sound(Run(t, events)) && Message(Run(t, events).writer) == Message(t.writer)
    ensures Run(t, events).writer.phase.WriteDone? ==> Run(t, events).since == Message(t.writer)
    decreases |events|
  {
    if events == [] {
      if t.writer.phase.WriteDone? {
        assert |t.since| == |Message(t.writer)|;
      }
    } else {
      StepIsSound(t, events[0]);
      RunIsSound(Step(t, events[0]), events[1..]);
    }
  }

  // ---------------------------------------------------------------------------------------------
  // Sending a whole message
  // ---------------------------------------------------------------------------------------------

  /** Calls of `write` until everything is sent, something fails, or the schedule is used up. */
  function Send(w: Writer, sink: Sink): (c: Call)
    requires Valid(w)
    ensures Valid(c.writer)
    decreases |sink.script|
  {
    var c := Write(w, sink);
    if c.result.Retry? && |c.sink.script| < |sink.script| then
      var d := Send(c.writer, c.sink);
      d.(total := c.total + d.total)
    else c
  }

  /** Under a harmless schedule nothing fails, and every moving outcome that is used moves a byte. */
  ghost predicate Scheduled(sink: Sink, c: Call) {
    && Harmless(c.sink.script)
    && |c.sink.script| <= |sink.script|
    && (c.result.Ok? || c.result.Retry?)
    && c.total + Moving(c.sink.script) >= Moving(sink.script)
  }

  lemma {:induction false} ScheduledStop(sink: Sink, offered: seq<Byte>, c: Call)
    requires offered != [] && Harmless(sink.script)
    requires var g := Give(sink, offered); c.sink == g.sink && c.total == g.count && c.result == g.result
    ensures Scheduled(sink, c)
    ensures sink.script != [] ==> |c.sink.script| < |sink.script|
  {
  }

  lemma {:induction false} ScheduledAfter(sink: Sink, offered: seq<Byte>, c: Call)
    requires offered != [] && Harmless(sink.script) && Give(sink, offered).result.Ok?
    requires Scheduled(Give(sink, offered).sink, c)
    ensures Scheduled(sink, c.(total := Give(sink, offered).count + c.total))
    ensures |c.sink.script| < |sink.script|
  {
  }

  lemma {:induction false} WriteIsScheduled(w: Writer, sink: Sink)
    requires Valid(w) && !Finished(w) && Harmless(sink.script)
    ensures Scheduled(sink, Write(w, sink))
    ensures sink.script != [] && !Settle(w).phase.WriteDone? ==> |Write(w, sink).sink.script| < |sink.script|
    decreases Rank(w.phase), w.remains
  {
    hide Advance, Moving, Offered;
    if Settle(w) != w {
      if !Settle(w).phase.WriteDone? {
        WriteIsScheduled(Settle(w), sink);
      }
    } else {
      var g := Give(sink, Offered(w));
      if g.result.Ok? && !Advance(w, g.count).phase.WriteDone? {
        AdvanceCounts(w, g.count);
        assert Harmless(g.sink.script);
        WriteIsScheduled(Advance(w, g.count), g.sink);
        ScheduledAfter(sink, Offered(w), Write(Advance(w, g.count), g.sink));
      } else {
        ScheduledStop(sink, Offered(w), Write(w, sink));
      }
    }
  }

  /** Any number of calls under any schedule send the message in order and without gaps. */
  lemma {:induction false} SendExtends(w: Writer, sink: Sink)
    requires Valid(w) && !Finished(w)
    ensures Extends(w, sink, Send(w, sink))
    decreases |sink.script|
  {
    hide Write, Message, Sent;
    WriteExtends(w, sink);
    var c := Write(w, sink);
    if c.result.Retry? && |c.sink.script| < |sink.script| {
      SendExtends(c.writer, c.sink);
      ExtendsAfter(w, c.writer, sink, c.sink, c.total, Send(c.writer, c.sink));
    }
  }

  /** A harmless schedule with a moving call for every byte sends everything. */
  lemma {:induction false} SendCompletes(w: Writer, sink: Sink)
    requires Valid(w) && !Finished(w) && Settle(w) == w && Harmless(sink.script)
    ensures Scheduled(sink, Send(w, sink))
    ensures Send(w, sink).result.Retry? ==> Send(w, sink).sink.script == []
    decreases |sink.script|
  {
    hide Write, Moving;
    WriteIsScheduled(w, sink);
    WriteExtends(w, sink);
    var c := Write(w, sink);
    if c.result.Retry? && |c.sink.script| < |sink.script| {
      SendCompletes(c.writer, c.sink);
    }
  }

  lemma {:induction false} SendOfReady(w: Writer, sink: Sink)
    requires Valid(w) && w.phase.WriteReady? && Harmless(sink.script)
    ensures Scheduled(sink, Send(w, sink))
    ensures Send(w, sink).result.Retry? ==> Send(w, sink).sink.script == []
  {
    assert Write(w, sink) == Write(Settle(w), sink);
    assert Send(w, sink) == Send(Settle(w), sink);
    hide Write, Send;
    SendCompletes(Settle(w), sink);
  }

  // ---------------------------------------------------------------------------------------------
  // What a call reports
  // ---------------------------------------------------------------------------------------------

  /** The result of a call against the last outcome of the device that it used up. */
  ghost predicate Reports(sink: Sink, c: Call) {
    var used := |sink.script| - |c.sink.script|;
    && 0 <= used && c.sink.script == sink.script[used..]
    && if used == 0 then c.result.Ok? || (c.result.Retry? && c.sink.script == [])
       else
         match sink.script[used - 1]
         case Waits => c.result.Retry?
         case Ends => c.result.Eof?
         case Fails => c.result.Error?
         case Moves(_) => c.result.Ok? || (c.result.Retry? && c.sink.script == [])
  }

  lemma {:induction false} ReportsGiven(sink: Sink, offered: seq<Byte>, c: Call)
    requires offered != [] && c.sink == Give(sink, offered).sink
    requires var g := Give(sink, offered); c.result == g.result
    ensures Reports(sink, c)
  {
  }

  lemma {:induction false} ReportsLater(sink: Sink, next: Sink, c: Call, n: nat)
    requires sink.script != [] && sink.script[0].Moves? && next.script == sink.script[1..]
    requires Reports(next, c)
    ensures Reports(sink, c.(total := n))
  {
  }

  lemma {:induction false} GivenIsMoved(sink: Sink, offered: seq<Byte>)
    requires offered != [] && Give(sink, offered).result.Ok?
    ensures sink.script != [] && sink.script[0].Moves? && Give(sink, offered).sink.script == sink.script[1..]
  {
  }

  /** A call ends at the first outcome of the device that is not a delivery, and reports it, or with the message. */
  lemma {:induction false} WriteReports(w: Writer, sink: Sink)
    requires Valid(w) && !Finished(w)
    ensures Reports(sink, Write(w, sink))
    decreases Rank(w.phase), w.remains
  {
    hide Give, Reports;
    if Settle(w) != w {
      if Settle(w).phase.WriteDone? {
        ReportsNothing(sink, Write(w, sink));
      } else {
        WriteReports(Settle(w), sink);
      }
    } else {
      var g := Give(sink, Offered(w));
      if g.result.Ok? && !Advance(w, g.count).phase.WriteDone? {
        AdvanceCounts(w, g.count);
        GivenIsMoved(sink, Offered(w));
        WriteReports(Advance(w, g.count), g.sink);
        ReportsLater(sink, g.sink, Write(Advance(w, g.count), g.sink), Write(w, sink).total);
      } else {
        ReportsGiven(sink, Offered(w), Write(w, sink));
      }
    }
  }

  lemma {:induction false} ReportsNothing(sink: Sink, c: Call)
    requires c.sink == sink && c.result.Ok?
    ensures Reports(sink, c)
  {
  }

  /** A writer that has finished, well or not, sends nothing more until it is rewound. */
  lemma {:induction false} FinishedRefuses(w: Writer, sink: Sink)
    requires Valid(w) && Finished(w)
    ensures var c := Write(w, sink); c.result.Error? && c.writer.phase.WriteError? && c.sink == sink && c.total == 0
  {
  }
}
