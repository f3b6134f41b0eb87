/**
 Runs of the readers under every schedule: messages arrive whole whatever the device does between the
 calls, and a log of any number of messages replays as exactly these messages.
 */
module Schedules {
  import opened Bytes
  import opened Headers
  import opened Devices
  import opened Reading
  import opened Packets

  // ---------------------------------------------------------------------------------------------
  // What a call of `read` takes from a schedule
  // ---------------------------------------------------------------------------------------------

  lemma {:induction false} HarmlessTail(script: Script)
    requires Harmless(script) && script != []
    ensures Harmless(script[1..])
  {
  }

  /**
   A harmless schedule stays harmless, and a call moves a byte for every moving outcome that it uses up
   while there are bytes to move.
   */
  ghost predicate Scheduled(source: Source, c: Call) {
    && Harmless(c.source.script)
    && |c.source.script| <= |source.script|
    && (c.result.Ok? || (c.result.Retry? && c.source.input != []) ==>
          c.total + Moving(c.source.script) >= Moving(source.script))
  }

  lemma {:induction false} ScheduledStop(source: Source, want: nat, c: Call)
    requires want > 0 && Harmless(source.script)
    requires c.source == Take(source, want).source && c.total == |Take(source, want).bytes|
    requires c.result.Ok? ==> Take(source, want).result.Ok?
    ensures Scheduled(source, c)
    ensures source.script != [] ==> |c.source.script| < |source.script|
  {
    if source.script != [] {
      HarmlessTail(source.script);
    }
  }

  lemma {:induction false} ScheduledAfter(source: Source, want: nat, c: Call)
    requires want > 0 && Harmless(source.script) && Take(source, want).result.Ok?
    requires Scheduled(Take(source, want).source, c)
    ensures Scheduled(source, c.(total := |Take(source, want).bytes| + c.total))
    ensures |c.source.script| < |source.script|
  {
  }

  lemma {:induction false} ReadIsScheduled(r: Reader, source: Source)
    requires Valid(r) && !Finished(r) && Harmless(source.script)
    ensures Scheduled(source, Read(r, source))
    ensures source.script != [] && !Settle(r).phase.ReadDone? ==>
              |Read(r, source).source.script| < |source.script|
    decreases Rank(r.phase), r.remains
  {
    if Settle(r) != r {
      if !Settle(r).phase.ReadDone? {
        SettleTwice(r);
        ReadIsScheduled(Settle(r), source);
      }
    } else {
      DeliveryIsScheduled(r, source);
    }
  }

  lemma {:induction false} DeliveryIsScheduled(r: Reader, source: Source)
    requires Valid(r) && !Finished(r) && Settle(r) == r && Harmless(source.script)
    ensures Scheduled(source, Read(r, source))
    ensures source.script != [] ==> |Read(r, source).source.script| < |source.script|
    decreases Rank(r.phase), r.remains, 0
  {
    hide Receive, Moving, Wanted;
    var want := Wanted(r);
    var t := Take(source, want);
    if !t.result.Ok? {
      ScheduledStop(source, want, Read(r, source));
    } else {
      var s := Receive(r, t.bytes);
      ReceiveProgresses(r, t.bytes);
      if Finished(s) || StopsEarly(r, s) {
        ScheduledStop(source, want, Read(r, source));
      } else {
        HarmlessTail(source.script);
        var c := Read(s, t.source);
        assert Read(r, source) == c.(total := |t.bytes| + c.total);
        ReadIsScheduled(s, t.source);
        ScheduledAfter(source, want, c);
      }
    }
  }

  // ---------------------------------------------------------------------------------------------
  // One message
  // ---------------------------------------------------------------------------------------------

  /** State of a reader after the first `k` bytes of `p`. */
  ghost function After(p: Packet, junk: Byte, aux: seq<Byte>, k: nat): Reader
    requires |aux| == AUX_DATA_SIZE && p.header != [] && k <= |Wire(p)|
  {
    Feed(Fresh(p.kind, junk, aux), Wire(p)[..k])
  }

  /** `r` has read `k` bytes of `p`, and `source` delivers the others, then `rest`. */
  ghost predicate Midway(p: Packet, junk: Byte, aux: seq<Byte>, k: nat, rest: seq<Byte>, r: Reader, source: Source)
    requires |aux| == AUX_DATA_SIZE
  {
    && WellFormed(p) && k < |Wire(p)|
    && r == After(p, junk, aux, k)
    && source.input == Wire(p)[k..] + rest
  }

  /** Bytes taken from the middle of `p` lead to the state that all bytes up to there lead to. */
  lemma {:induction false} MidwayFeeds(p: Packet, junk: Byte, aux: seq<Byte>, k: nat, rest: seq<Byte>,
                                       r: Reader, source: Source, n: nat)
    requires |aux| == AUX_DATA_SIZE && Midway(p, junk, aux, k, rest, r, source)
    requires n <= |source.input|
    ensures k + n < |Wire(p)| ==> Feed(r, source.input[..n]) == After(p, junk, aux, k + n)
    ensures k + n >= |Wire(p)| ==> Feed(r, source.input[..n]) == Received(p, junk, aux)
  {
    hide Feed, WellFormed;
    var first := Fresh(p.kind, junk, aux);
    var w := Wire(p);
    FeedJoins(first, w[..k], source.input[..n]);
    if k + n < |w| {
      assert w[..k] + source.input[..n] == w[..k + n];
    } else {
      var extra := source.input[|w| - k..n];
      assert w[..k] + source.input[..n] == w + extra;
      FeedReceives(p, junk, aux);
      FeedJoins(first, w, extra);
      ReceivedStays(p, junk, aux, extra);
    }
  }

  lemma {:induction false} ReceivedStays(p: Packet, junk: Byte, aux: seq<Byte>, bytes: seq<Byte>)
    requires WellFormed(p) && |aux| == AUX_DATA_SIZE
    ensures Valid(Received(p, junk, aux)) && Feed(Received(p, junk, aux), bytes) == Received(p, junk, aux)
  {
    ReceivedShows(p, junk, aux);
  }

  lemma {:induction false} EndIsExact(p: Packet, junk: Byte, aux: seq<Byte>, k: nat, r: Reader, source: Source)
    requires WellFormed(p) && |aux| == AUX_DATA_SIZE && k < |Wire(p)| && r == After(p, junk, aux, k)
    requires !Finished(r) && Read(r, source).reader == Received(p, junk, aux)
    ensures k + Read(r, source).total == |Wire(p)|
  {
    hide Feed, Read, WellFormed, Valid;
    ReadShows(r, source);
    ReceivedShows(p, junk, aux);
    FeedShows(Fresh(p.kind, junk, aux), Wire(p)[..k]);
  }

  /** What a call of `read` may do in the middle of a well-formed message. */
  ghost predicate StaysInMessage(p: Packet, junk: Byte, aux: seq<Byte>, k: nat, rest: seq<Byte>, harmless: bool, c: Call)
    requires |aux| == AUX_DATA_SIZE && p.header != []
  {
    && k + c.total <= |Wire(p)|
    && c.source.input == Wire(p)[k + c.total..] + rest
    && (c.result.Ok? <==> k + c.total == |Wire(p)|)
    && (c.result.Ok? ==> c.reader == Received(p, junk, aux))
    && (c.result.Retry? ==> Midway(p, junk, aux, k + c.total, rest, c.reader, c.source))
    && (harmless ==> c.result.Ok? || c.result.Retry?)
  }

  /**
   Any call of `read`, anywhere in a well-formed message and under any schedule, takes bytes of this
   message only, completes exactly when it takes the last one, and then holds the message.
   */
  lemma {:induction false} ReadStaysInMessage(p: Packet, junk: Byte, aux: seq<Byte>, k: nat, rest: seq<Byte>,
                                              r: Reader, source: Source)
    requires |aux| == AUX_DATA_SIZE && Midway(p, junk, aux, k, rest, r, source)
    ensures StaysInMessage(p, junk, aux, k, rest, Harmless(source.script), Read(r, source))
  {
    hide Feed, Read, WellFormed, Valid;
    NotFinishedEarly(p, junk, aux, k);
    var c := Read(r, source);
    ReadIsFeed(r, source);
    MidwayFeeds(p, junk, aux, k, rest, r, source, c.total);
    if k + c.total < |Wire(p)| {
      NotFinishedEarly(p, junk, aux, k + c.total);
    } else {
      EndIsExact(p, junk, aux, k, r, source);
    }
    assert source.input[c.total..] == Wire(p)[k + c.total..] + rest;
  }

  /** Calls of `read` until the message is complete, something fails, or the schedule is used up. */
  function Deliver(r: Reader, source: Source): (c: Call)
    requires Valid(r)
    ensures Valid(c.reader)
    decreases |source.script|
  {
    var c := Read(r, source);
    if c.result.Retry? && |c.source.script| < |source.script| then
      var d := Deliver(c.reader, c.source);
      d.(total := c.total + d.total)
    else c
  }

  /** A run under a harmless schedule ends with the message or with the schedule. */
  ghost predicate Progresses(source: Source, c: Call) {
    && Harmless(c.source.script)
    && |c.source.script| <= |source.script|
    && (source.script != [] ==> |c.source.script| < |source.script|)
    && c.total + Moving(c.source.script) >= Moving(source.script)
    && (c.result.Retry? ==> c.source.script == [])
  }

  lemma {:induction false} StaysInMessageTrans(p: Packet, junk: Byte, aux: seq<Byte>, k: nat, rest: seq<Byte>,
                                               harmless: bool, c: Call, d: Call, later: bool)
    requires |aux| == AUX_DATA_SIZE && p.header != []
    requires StaysInMessage(p, junk, aux, k, rest, harmless, c)
    requires StaysInMessage(p, junk, aux, k + c.total, rest, later, d) && (harmless ==> later)
    ensures StaysInMessage(p, junk, aux, k, rest, harmless, d.(total := c.total + d.total))
  {
  }

  lemma {:induction false} AfterIsSettled(p: Packet, junk: Byte, aux: seq<Byte>, k: nat)
    requires |aux| == AUX_DATA_SIZE && p.header != [] && k <= |Wire(p)|
    ensures Valid(After(p, junk, aux, k)) && Settle(After(p, junk, aux, k)) == After(p, junk, aux, k)
  {
    FeedJoins(Fresh(p.kind, junk, aux), Wire(p)[..k], []);
    assert Wire(p)[..k] + [] == Wire(p)[..k];
    SettleTwice(After(p, junk, aux, k));
  }

  /**
   Any number of calls under any schedule: the message is either complete, and then it is exactly the one
   sent, or still under way, or the device has failed. A harmless schedule with a moving call for every
   byte completes it.
   */
  lemma {:induction false} MessageIsDelivered(p: Packet, junk: Byte, aux: seq<Byte>, k: nat, rest: seq<Byte>,
                                              r: Reader, source: Source)
    requires |aux| == AUX_DATA_SIZE && Midway(p, junk, aux, k, rest, r, source)
    ensures StaysInMessage(p, junk, aux, k, rest, Harmless(source.script), Deliver(r, source))
    ensures Harmless(source.script) ==> Progresses(source, Deliver(r, source))
    decreases |source.script|
  {
    hide Read, Feed, WellFormed, Valid;
    NotFinishedEarly(p, junk, aux, k);
    AfterIsSettled(p, junk, aux, k);
    var c := Read(r, source);
    ReadStaysInMessage(p, junk, aux, k, rest, r, source);
    if Harmless(source.script) {
      ReadIsScheduled(r, source);
    }
    if c.result.Retry? && |c.source.script| < |source.script| {
      MessageIsDelivered(p, junk, aux, k + c.total, rest, c.reader, c.source);
      StaysInMessageTrans(p, junk, aux, k, rest, Harmless(source.script), c, Deliver(c.reader, c.source),
                          Harmless(c.source.script));
    }
  }

  // Any stream

  /** Split independence of a whole run: any number of calls do what the bytes they take do one by one. */
  lemma {:induction false} DeliverIsFeed(r: Reader, source: Source)
    requires Valid(r) && !Finished(r)
    ensures Explains(r, source, Deliver(r, source))
    decreases |source.script|
  {
    hide Read, Feed, Valid, Settle;
    var c := Read(r, source);
    ReadIsFeed(r, source);
    if Harmless(source.script) {
      ReadIsScheduled(r, source);
    }
    if c.result.Retry? && |c.source.script| < |source.script| {
      DeliverIsFeed(c.reader, c.source);
      var bytes := source.input[..c.total];
      FeedIsSettled(r, bytes);
      assert bytes + c.source.input == source.input;
      ExplainsAfter(r, c.reader, bytes, source, c.source, Deliver(c.reader, c.source));
    }
  }

  lemma {:induction false} FeedIsSettled(r: Reader, bytes: seq<Byte>)
    requires Valid(r)
    ensures Settle(Feed(r, bytes)) == Feed(r, bytes)
  {
    FeedJoins(r, bytes, []);
    assert bytes + [] == bytes;
    SettleTwice(Feed(r, bytes));
  }

  lemma {:induction false} DeliverShows(r: Reader, source: Source)
    requires Valid(r) && !Finished(r) && !Deliver(r, source).reader.phase.ReadError?
    ensures var c := Deliver(r, source);
            c.total <= |source.input| && Shown(c.reader) == Shown(r) + source.input[..c.total]
    decreases |source.script|
  {
    hide Read, Feed, Valid, Settle, Shown;
    var c := Read(r, source);
    ReadIsFeed(r, source);
    if c.result.Retry? && |c.source.script| < |source.script| {
      DeliverShows(c.reader, c.source);
      var n := Deliver(c.reader, c.source).total;
      assert source.input[..c.total] + c.source.input[..n] == source.input[..c.total + n];
    }
    if !c.reader.phase.ReadError? {
      ReadShows(r, source);
    }
  }

  /**
   What it takes for the calls of `read` to succeed, for every stream and every schedule: the bytes taken
   are exactly the header and the payload that the reader then holds and, if the header announces it, the
   integrity marker; nothing after them is touched.
   */
  lemma {:induction false} OkIsMessage(kind: Kind, junk: Byte, aux: seq<Byte>, source: Source)
    requires |aux| == AUX_DATA_SIZE && Deliver(Fresh(kind, junk, aux), source).result.Ok?
    ensures var c := Deliver(Fresh(kind, junk, aux), source);
            var r := c.reader;
            && Sized(r) && PacketRead(r).header != []
            && source.input ==
               HeaderRead(r) + r.payload + (if HasMarker(r.header[0]) then [0xC3] else []) + c.source.input
            && (WellFormed(PacketRead(r)) <==>
                  IsLoneDescriptor(PacketRead(r)) || PayloadClass(r.header[0]) == 0 || HoldsInfo(PacketRead(r)))
  {
    hide Deliver, Feed, WellFormed, IsLoneDescriptor, HoldsInfo;
    var first := Fresh(kind, junk, aux);
    var c := Deliver(first, source);
    DeliverIsFeed(first, source);
    DoneIsMessage(kind, junk, aux, source.input[..c.total]);
    DeliverShows(first, source);
    assert source.input[..c.total] + source.input[c.total..] == source.input;
  }

  // ---------------------------------------------------------------------------------------------
  // A log of messages
  // ---------------------------------------------------------------------------------------------

  /** A new reader for every message, as when a binlog is replayed; the readers that completed. */
  function Replay(kind: Kind, junk: Byte, aux: seq<Byte>, source: Source): seq<Reader>
    requires |aux| == AUX_DATA_SIZE
    decreases |source.script|
  {
    var c := Deliver(Fresh(kind, junk, aux), source);
    if c.result.Ok? && |c.source.script| < |source.script|
    then [c.reader] + Replay(kind, junk, aux, c.source)
    else []
  }

  function Log(ps: seq<Packet>): seq<Byte>
    requires forall i :: 0 <= i < |ps| ==> ps[i].header != []
  {
    if ps == [] then [] else Wire(ps[0]) + Log(ps[1..])
  }

  predicate ValidLog(kind: Kind, ps: seq<Packet>) {
    forall i :: 0 <= i < |ps| ==> WellFormed(ps[i]) && ps[i].kind == kind
  }

  lemma {:induction false} DeliverSettled(kind: Kind, junk: Byte, aux: seq<Byte>, source: Source)
    requires |aux| == AUX_DATA_SIZE
    ensures var r := Fresh(kind, junk, aux);
            Deliver(r, source) == Deliver(Settle(r), source)
  {
    hide Receive, Feed, Take;
    var r := Fresh(kind, junk, aux);
    assert Read(r, source) == Read(Settle(r), source);
  }

  lemma {:induction false} FreshStarts(p: Packet, junk: Byte, aux: seq<Byte>, rest: seq<Byte>, source: Source)
    requires WellFormed(p) && |aux| == AUX_DATA_SIZE && source.input == Wire(p) + rest
    ensures Midway(p, junk, aux, 0, rest, After(p, junk, aux, 0), source)
    ensures Valid(After(p, junk, aux, 0))
    ensures Deliver(Fresh(p.kind, junk, aux), source) == Deliver(After(p, junk, aux, 0), source)
  {
    hide Receive, Deliver, Read;
    DeliverSettled(p.kind, junk, aux, source);
    assert Wire(p)[..0] == [] && Wire(p)[0..] == Wire(p);
    assert After(p, junk, aux, 0) == Settle(Fresh(p.kind, junk, aux));
  }

  // A message that was cut off

  /** A call in the middle of a message that was cut off takes bytes of it and does not complete. */
  lemma {:induction false} CutStaysCut(q: Packet, junk: Byte, aux: seq<Byte>, j: nat, k: nat, r: Reader, source: Source)
    requires WellFormed(q) && |aux| == AUX_DATA_SIZE && j <= k < |Wire(q)|
    requires r == After(q, junk, aux, j) && source.input == Wire(q)[j..k]
    ensures Valid(r)
    ensures var c := Read(r, source);
            && j + c.total <= k && !c.result.Ok?
            && (c.result.Retry? ==>
                  c.reader == After(q, junk, aux, j + c.total) && c.source.input == Wire(q)[j + c.total..k])
  {
    hide Feed, Read, WellFormed, Valid;
    NotFinishedEarly(q, junk, aux, j);
    var c := Read(r, source);
    ReadIsFeed(r, source);
    var w, n := Wire(q), c.total;
    FeedJoins(Fresh(q.kind, junk, aux), w[..j], source.input[..n]);
    assert w[..j] + source.input[..n] == w[..j + n];
    NotFinishedEarly(q, junk, aux, j + n);
    assert source.input[n..] == w[j + n..k];
  }

  lemma {:induction false} CutIsNotDelivered(q: Packet, junk: Byte, aux: seq<Byte>, j: nat, k: nat, r: Reader, source: Source)
    requires WellFormed(q) && |aux| == AUX_DATA_SIZE && j <= k < |Wire(q)|
    requires r == After(q, junk, aux, j) && source.input == Wire(q)[j..k]
    ensures Valid(r) && !Deliver(r, source).result.Ok?
    decreases |source.script|
  {
    hide Read, Feed, WellFormed, Valid;
    CutStaysCut(q, junk, aux, j, k, r, source);
    var c := Read(r, source);
    if c.result.Retry? && |c.source.script| < |source.script| {
      CutIsNotDelivered(q, junk, aux, j + c.total, k, c.reader, c.source);
    }
  }

  lemma {:induction false} CutIsNotRead(q: Packet, junk: Byte, aux: seq<Byte>, k: nat, source: Source)
    requires WellFormed(q) && |aux| == AUX_DATA_SIZE && k < |Wire(q)| && source.input == Wire(q)[..k]
    ensures var r := Fresh(q.kind, junk, aux);
            !Read(r, source).result.Ok? && !Deliver(r, source).result.Ok?
  {
    hide Receive, Deliver, Read, Wire;
    var r := After(q, junk, aux, 0);
    assert Wire(q)[..0] == [] && Wire(q)[0..k] == Wire(q)[..k];
    assert r == Settle(Fresh(q.kind, junk, aux));
    FreshSettles(q.kind, junk, aux, source);
    DeliverSettled(q.kind, junk, aux, source);
    CutStaysCut(q, junk, aux, 0, k, r, source);
    CutIsNotDelivered(q, junk, aux, 0, k, r, source);
  }

  lemma {:induction false} FreshSettles(kind: Kind, junk: Byte, aux: seq<Byte>, source: Source)
    requires |aux| == AUX_DATA_SIZE
    ensures var r := Fresh(kind, junk, aux); Read(r, source) == Read(Settle(r), source)
  {
    hide Receive, Take;
  }

  /** What a log holds: whole messages, and perhaps the first bytes of one more. */
  ghost predicate Holds(input: seq<Byte>, ps: seq<Packet>, q: Packet, k: nat, kind: Kind) {
    && ValidLog(kind, ps) && WellFormed(q) && q.kind == kind && k < |Wire(q)|
    && input == Log(ps) + Wire(q)[..k]
  }

  lemma {:induction false} HoldsFirst(input: seq<Byte>, ps: seq<Packet>, q: Packet, k: nat, kind: Kind)
    requires Holds(input, ps, q, k, kind)
    ensures ps == [] ==> input == Wire(q)[..k]
    ensures ps != [] ==>
              && WellFormed(ps[0]) && ps[0].kind == kind
              && input == Wire(ps[0]) + (Log(ps[1..]) + Wire(q)[..k])
              && Holds(Log(ps[1..]) + Wire(q)[..k], ps[1..], q, k, kind)
  {
    hide WellFormed, Wire;
    if ps == [] {
      assert Log(ps) + Wire(q)[..k] == Wire(q)[..k];
    } else {
      assert Log(ps) + Wire(q)[..k] == Wire(ps[0]) + (Log(ps[1..]) + Wire(q)[..k]);
    }
  }

  /** The readers hold the first messages of the log, in order. */
  ghost predicate AreFirst(rs: seq<Reader>, ps: seq<Packet>, junk: Byte, aux: seq<Byte>)
    requires |aux| == AUX_DATA_SIZE
  {
    |rs| <= |ps| && forall i :: 0 <= i < |rs| ==> ps[i].header != [] && rs[i] == Received(ps[i], junk, aux)
  }

  lemma {:induction false} AreFirstGrows(r: Reader, rs: seq<Reader>, ps: seq<Packet>, junk: Byte, aux: seq<Byte>)
    requires |aux| == AUX_DATA_SIZE && ps != [] && AreFirst(rs, ps[1..], junk, aux)
    requires ps[0].header != [] && r == Received(ps[0], junk, aux)
    ensures AreFirst([r] + rs, ps, junk, aux)
  {
    hide Received;
    forall i | 0 <= i < |[r] + rs|
      ensures ps[i].header != [] && ([r] + rs)[i] == Received(ps[i], junk, aux)
    {
      if i > 0 {
        assert ([r] + rs)[i] == rs[i - 1] && ps[i] == ps[1..][i - 1];
      }
    }
  }

  /**
   Under any schedule, with failures or without, a log of any number of well-formed messages replays as the
   first of exactly these messages in their order, also if the log was cut off within one more. It replays
   as all of them if the schedule is harmless and has a moving call for every byte of theirs.
   */
  lemma {:induction false} LogReplays(kind: Kind, junk: Byte, aux: seq<Byte>, ps: seq<Packet>, q: Packet, k: nat,
                                      source: Source)
    requires |aux| == AUX_DATA_SIZE && Holds(source.input, ps, q, k, kind)
    ensures var rs := Replay(kind, junk, aux, source);
            && AreFirst(rs, ps, junk, aux)
            && (Harmless(source.script) && Moving(source.script) >= |Log(ps)| ==> |rs| == |ps|)
    decreases |ps|
  {
    hide Deliver, WellFormed, Received, Wire, Holds, AreFirst;
    HoldsFirst(source.input, ps, q, k, kind);
    HoldsValid(source.input, ps, q, k, kind);
    if ps == [] {
      CutIsNotRead(q, junk, aux, k, source);
      NoneAreFirst(ps, junk, aux);
    } else {
      var p, rest := ps[0], Log(ps[1..]) + Wire(q)[..k];
      FreshStarts(p, junk, aux, rest, source);
      MessageIsDelivered(p, junk, aux, 0, rest, After(p, junk, aux, 0), source);
      var c := Deliver(Fresh(kind, junk, aux), source);
      if c.result.Ok? && |c.source.script| < |source.script| {
        assert c.source.input == Wire(p)[|Wire(p)|..] + rest == rest;
        LogReplays(kind, junk, aux, ps[1..], q, k, c.source);
        AreFirstGrows(c.reader, Replay(kind, junk, aux, c.source), ps, junk, aux);
      } else {
        NoneAreFirst(ps, junk, aux);
      }
    }
  }

  lemma {:induction false} HoldsValid(input: seq<Byte>, ps: seq<Packet>, q: Packet, k: nat, kind: Kind)
    requires Holds(input, ps, q, k, kind)
    ensures ValidLog(kind, ps) && WellFormed(q) && q.kind == kind && k < |Wire(q)|
    ensures forall i :: 0 <= i < |ps| ==> ps[i].header != []
    ensures ps == [] ==> |Log(ps)| == 0
    ensures ps != [] ==> |Log(ps)| == |Wire(ps[0])| + |Log(ps[1..])|
  {
    hide Wire;
  }

  lemma {:induction false} NoneAreFirst(ps: seq<Packet>, junk: Byte, aux: seq<Byte>)
    requires |aux| == AUX_DATA_SIZE
    ensures AreFirst([], ps, junk, aux)
  {
  }
}
