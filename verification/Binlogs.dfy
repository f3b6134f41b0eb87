/** `load_binlog`: the commands of a file, one reader after another, up to the size of the file. */
module Binlogs {
  import opened Bytes
  import opened Headers
  import opened Devices
  import opened Reading
  import opened Packets
  import opened Schedules
  import opened Readers

  /** The readers that were handed on, the size reached, whether a stop request ended the loop, and the device. */
  datatype Loaded = Loaded(readers: seq<Reader>, current: nat, stopped: bool, source: Source)

  /** Whether a stop request has been received once that many commands were handed on. */
  type Requests = nat -> bool

  /** A call that completes a message has moved something. */
  lemma {:induction false} CompleteIsNotEmpty(kind: Kind, junk: Byte, aux: seq<Byte>, source: Source)
    requires |aux| == AUX_DATA_SIZE
    ensures var c := Read(Fresh(kind, junk, aux), source); c.result.Ok? ==> c.total > 0
  {
    hide Read, Receive;
    var r := Fresh(kind, junk, aux);
    ReadIsFeed(r, source);
    assert source.input[..0] == [];
    assert Feed(r, []) == Settle(r);
  }

  /** The loop of `load_binlog`; anything but a complete command ends it, and so does a stop request. */
  function Load(junk: Byte, aux: seq<Byte>, source: Source, current: nat, max: nat, quit: Requests, num: nat): (l: Loaded)
    requires |aux| == AUX_DATA_SIZE
    decreases max - current
  {
    if current >= max then Loaded([], current, false, source)
    else
      var c := Read(Fresh(Command, junk, aux), source);
      if !c.result.Ok? then Loaded([], current, false, c.source)
      else if quit(num + 1) then Loaded([c.reader], current + c.total, true, c.source)
      else
        CompleteIsNotEmpty(Command, junk, aux, source);
        var rest := Load(junk, aux, c.source, current + c.total, max, quit, num + 1);
        rest.(readers := [c.reader] + rest.readers)
  }

  lemma {:induction false} LoadIsOver(junk: Byte, aux: seq<Byte>, source: Source, current: nat, max: nat, quit: Requests,
                                      num: nat)
    requires |aux| == AUX_DATA_SIZE && current >= max
    ensures Load(junk, aux, source, current, max, quit, num) == Loaded([], current, false, source)
  {
  }

  lemma {:induction false} LoadTurn(junk: Byte, aux: seq<Byte>, source: Source, current: nat, max: nat, quit: Requests,
                                    num: nat)
    requires |aux| == AUX_DATA_SIZE && current < max
    ensures var c := Read(Fresh(Command, junk, aux), source);
            && (c.result.Ok? ==> c.total > 0)
            && Load(junk, aux, source, current, max, quit, num) ==
               if !c.result.Ok? then Loaded([], current, false, c.source)
               else if quit(num + 1) then Loaded([c.reader], current + c.total, true, c.source)
               else
                 var rest := Load(junk, aux, c.source, current + c.total, max, quit, num + 1);
                 rest.(readers := [c.reader] + rest.readers)
  {
    hide Read;
    CompleteIsNotEmpty(Command, junk, aux, source);
  }

  /** One whole command at the start of the file is handed on and counted, or the loop ends. */
  lemma {:induction false} FirstIsRead(p: Packet, junk: Byte, aux: seq<Byte>, rest: seq<Byte>, source: Source)
    requires WellFormed(p) && |aux| == AUX_DATA_SIZE && source.input == Wire(p) + rest
    ensures var c := Read(Fresh(p.kind, junk, aux), source);
            c.result.Ok? ==> c.reader == Received(p, junk, aux) && c.total == |Wire(p)| && c.source.input == rest
    ensures Read(Fresh(p.kind, junk, aux), source) == Read(After(p, junk, aux, 0), source)
  {
    hide Receive, Deliver, Read, Wire;
    FreshSettles(p.kind, junk, aux, source);
    FreshStarts(p, junk, aux, rest, source);
    assert Wire(p)[..0] == [];
    assert After(p, junk, aux, 0) == Settle(Fresh(p.kind, junk, aux));
    ReadStaysInMessage(p, junk, aux, 0, rest, After(p, junk, aux, 0), source);
    var c := Read(Fresh(p.kind, junk, aux), source);
    if c.result.Ok? {
      assert Wire(p)[c.total..] + rest == rest;
    }
  }

  /**
   What the loader has done when it ends: it has handed on the first commands of the file, in order; the size it
   reached is where the last of them ends; it has reached the size of the file if and only if it has handed on
   all commands and the file was not cut off within one more; and it was stopped if and only if a request was
   there after the last of them, and none was there before.
   */
  ghost predicate Accounts(l: Loaded, ps: seq<Packet>, k: nat, junk: Byte, aux: seq<Byte>, current: nat, max: nat,
                           quit: Requests, num: nat)
    requires |aux| == AUX_DATA_SIZE && forall i :: 0 <= i < |ps| ==> ps[i].header != []
  {
    && AreFirst(l.readers, ps, junk, aux)
    && l.current == current + |Log(ps[..|l.readers|])| <= max
    && (l.current == max <==> |l.readers| == |ps| && k == 0)
    && (forall n :: num < n < num + |l.readers| ==> !quit(n))
    && (l.stopped <==> l.readers != [] && quit(num + |l.readers|))
  }

  /** Nothing was handed on. */
  lemma {:induction false} AccountsNone(l: Loaded, ps: seq<Packet>, k: nat, junk: Byte, aux: seq<Byte>, current: nat,
                                        max: nat, quit: Requests, num: nat)
    requires |aux| == AUX_DATA_SIZE && forall i :: 0 <= i < |ps| ==> ps[i].header != []
    requires l.readers == [] && l.current == current && !l.stopped
    requires current <= max && (current == max <==> ps == [] && k == 0)
    ensures Accounts(l, ps, k, junk, aux, current, max, quit, num)
  {
    hide Received, Wire;
    assert ps[..0] == [];
  }

  /** One command was handed on, and then a stop request was there, or the rest is accounted for. */
  lemma {:induction false} AccountsMore(r: Reader, rest: Loaded, ps: seq<Packet>, k: nat, junk: Byte, aux: seq<Byte>,
                                        current: nat, max: nat, quit: Requests, num: nat)
    requires |aux| == AUX_DATA_SIZE && ps != [] && forall i :: 0 <= i < |ps| ==> ps[i].header != []
    requires r == Received(ps[0], junk, aux)
    requires if quit(num + 1)
             then rest.readers == [] && rest.stopped && rest.current == current + |Wire(ps[0])| <= max
                  && (rest.current == max <==> ps[1..] == [] && k == 0)
             else Accounts(rest, ps[1..], k, junk, aux, current + |Wire(ps[0])|, max, quit, num + 1)
    ensures Accounts(rest.(readers := [r] + rest.readers), ps, k, junk, aux, current, max, quit, num)
  {
    hide Received, Wire, AreFirst;
    NoneAreFirst(ps[1..], junk, aux);
    EmptyLog(ps[1..]);
    AreFirstGrows(r, rest.readers, ps, junk, aux);
    ReachesFirst(ps, rest.readers, junk, aux);
  }

  /** Whatever the file system does and whenever a stop request comes, the loader accounts for what it has done. */
  lemma {:induction false} LoadsLog(junk: Byte, aux: seq<Byte>, ps: seq<Packet>, q: Packet, k: nat,
                                    source: Source, current: nat, max: nat, quit: Requests, num: nat)
    requires |aux| == AUX_DATA_SIZE && Holds(source.input, ps, q, k, Command)
    requires max == current + |source.input|
    ensures forall i :: 0 <= i < |ps| ==> ps[i].header != []
    ensures Accounts(Load(junk, aux, source, current, max, quit, num), ps, k, junk, aux, current, max, quit, num)
    decreases |ps|
  {
    hide Read, WellFormed, Received, Wire, Holds, AreFirst, ValidLog, Log, Accounts;
    HoldsValid(source.input, ps, q, k, Command);
    HoldsFirst(source.input, ps, q, k, Command);
    var l := Load(junk, aux, source, current, max, quit, num);
    if ps == [] {
      CutIsNotRead(q, junk, aux, k, source);
      AccountsNone(l, ps, k, junk, aux, current, max, quit, num);
    } else {
      var p, rest := ps[0], Log(ps[1..]) + Wire(q)[..k];
      WireIsNotEmpty(p);
      FirstIsRead(p, junk, aux, rest, source);
      var c := Read(Fresh(Command, junk, aux), source);
      if !c.result.Ok? {
        AccountsNone(l, ps, k, junk, aux, current, max, quit, num);
      } else if quit(num + 1) {
        RestIsEmptyIff(ps[1..], q, k);
        AccountsMore(c.reader, l.(readers := []), ps, k, junk, aux, current, max, quit, num);
        assert [c.reader] + [] == [c.reader];
      } else {
        LoadsLog(junk, aux, ps[1..], q, k, c.source, current + c.total, max, quit, num + 1);
        AccountsMore(c.reader, Load(junk, aux, c.source, current + c.total, max, quit, num + 1), ps, k, junk, aux,
                     current, max, quit, num);
      }
    }
  }

  lemma {:induction false} RestIsEmptyIff(ps: seq<Packet>, q: Packet, k: nat)
    requires forall i :: 0 <= i < |ps| ==> ps[i].header != []
    requires q.header != [] && k <= |Wire(q)|
    ensures |Log(ps) + Wire(q)[..k]| == 0 <==> ps == [] && k == 0
  {
  }

  lemma {:induction false} EmptyLog(ps: seq<Packet>)
    ensures ps[..0] == [] && Log(ps[..0]) == []
  {
  }

  lemma {:induction false} ReachesFirst(ps: seq<Packet>, rs: seq<Reader>, junk: Byte, aux: seq<Byte>)
    requires |aux| == AUX_DATA_SIZE && ps != [] && AreFirst(rs, ps[1..], junk, aux)
    requires forall i :: 0 <= i < |ps| ==> ps[i].header != []
    ensures |rs| <= |ps| - 1
    ensures |Log(ps[..|rs| + 1])| == |Wire(ps[0])| + |Log(ps[1..][..|rs|])|
  {
    hide Wire;
    assert ps[..|rs| + 1][1..] == ps[1..][..|rs|];
  }

  lemma {:induction false} WireIsNotEmpty(p: Packet)
    requires WellFormed(p)
    ensures p.header != [] && |Wire(p)| > 0
  {
  }

  // ---------------------------------------------------------------------------------------------
  // A file that is read without failures
  // ---------------------------------------------------------------------------------------------

  /** Every call moves something. */
  predicate Steady(script: Script) {
    forall i :: 0 <= i < |script| ==> script[i].Moves?
  }

  lemma {:induction false} SteadyIsMoving(script: Script)
    requires Steady(script)
    ensures Harmless(script) && Moving(script) == |script|
  {
    if script != [] {
      SteadyIsMoving(script[1..]);
    }
  }

  /** A call for a command goes on until the message is over or there is nothing to move. */
  lemma {:induction false} SteadyRead(r: Reader, source: Source)
    requires Valid(r) && !Finished(r) && r.kind.Command? && Steady(source.script)
    ensures var c := Read(r, source);
            && Steady(c.source.script)
            && (c.result.Ok? || c.source.input != [] ==> |c.source.script| + c.total >= |source.script|)
            && (c.result.Retry? ==> c.source.input == [] || c.source.script == [])
    decreases Rank(r.phase), r.remains
  {
    hide Receive, Feed, Valid;
    if Settle(r) != r {
      SettlesOn(r);
      if !Settle(r).phase.ReadDone? {
        SteadyRead(Settle(r), source);
      }
    } else {
      SteadyDelivery(r, source);
    }
  }

  lemma {:induction false} SettlesOn(r: Reader)
    requires Valid(r) && Settle(r) != r
    ensures Settle(r).kind == r.kind && Rank(Settle(r).phase) < Rank(r.phase) && Settle(r).phase != r.phase
    ensures Finished(Settle(r)) ==> Settle(r).phase.ReadDone?
  {
  }

  lemma {:induction false} SteadyTake(source: Source, want: nat)
    requires want > 0 && Steady(source.script)
    ensures var t := Take(source, want);
            && Steady(t.source.script)
            && (t.result.Ok? || source.input != [] ==> |t.source.script| + |t.bytes| >= |source.script|)
            && (t.result.Ok? || t.result.Retry?)
            && (t.result.Ok? <==> source.script != [] && source.input != [])
            && (t.result.Retry? ==> t.source.input == source.input)
  {
  }

  lemma {:induction false} SteadyDelivery(r: Reader, source: Source)
    requires Valid(r) && !Finished(r) && r.kind.Command? && Settle(r) == r && Steady(source.script)
    ensures var c := Read(r, source);
            && Steady(c.source.script)
            && (c.result.Ok? || c.source.input != [] ==> |c.source.script| + c.total >= |source.script|)
            && (c.result.Retry? ==> c.source.input == [] || c.source.script == [])
    decreases Rank(r.phase), r.remains, 0
  {
    hide Receive, Valid, Take;
    var t := Take(source, Wanted(r));
    SteadyTake(source, Wanted(r));
    if t.result.Ok? {
      var s := Receive(r, t.bytes);
      ReceiveProgresses(r, t.bytes);
      ReceiveKeepsKind(r, t.bytes);
      if !Finished(s) {
        SteadyRead(s, t.source);
      }
    }
  }

  lemma {:induction false} ReceiveKeepsKind(r: Reader, bytes: seq<Byte>)
    requires Valid(r) && 0 < |bytes| <= Wanted(r)
    ensures Receive(r, bytes).kind == r.kind
  {
    hide GetPayloadInfo, Repeat, Overwrite;
  }

  /** A file that is read without failures, with a call for every byte, is loaded to its last whole command unless a stop request comes. */
  lemma {:induction false} LoadsAll(junk: Byte, aux: seq<Byte>, ps: seq<Packet>, q: Packet, k: nat,
                                    source: Source, current: nat, max: nat, quit: Requests, num: nat)
    requires |aux| == AUX_DATA_SIZE && Holds(source.input, ps, q, k, Command)
    requires max == current + |source.input|
    requires forall i :: 0 <= i < |ps| ==> ps[i].header != []
    requires Steady(source.script) && |source.script| >= |Log(ps)|
    ensures var l := Load(junk, aux, source, current, max, quit, num); |l.readers| == |ps| || l.stopped
    decreases |ps|
  {
    hide Read, WellFormed, Received, Wire, Holds, AreFirst, Steady, ValidLog, Log;
    LoadsLog(junk, aux, ps, q, k, source, current, max, quit, num);
    HoldsValid(source.input, ps, q, k, Command);
    HoldsFirst(source.input, ps, q, k, Command);
    if ps == [] {
      AreFirstBound(Load(junk, aux, source, current, max, quit, num).readers, ps, junk, aux);
    } else {
      var p, rest := ps[0], Log(ps[1..]) + Wire(q)[..k];
      WireIsNotEmpty(p);
      FirstIsRead(p, junk, aux, rest, source);
      SteadyFirst(p, junk, aux, rest, source);
      var c := Read(Fresh(Command, junk, aux), source);
      LoadsAll(junk, aux, ps[1..], q, k, c.source, current + c.total, max, quit, num + 1);
    }
  }

  lemma {:induction false} AreFirstBound(rs: seq<Reader>, ps: seq<Packet>, junk: Byte, aux: seq<Byte>)
    requires |aux| == AUX_DATA_SIZE && AreFirst(rs, ps, junk, aux)
    ensures |rs| <= |ps|
  {
  }

  lemma {:induction false} SteadyFirst(p: Packet, junk: Byte, aux: seq<Byte>, rest: seq<Byte>, source: Source)
    requires WellFormed(p) && p.kind.Command? && |aux| == AUX_DATA_SIZE && source.input == Wire(p) + rest
    requires Steady(source.script) && |source.script| >= |Wire(p)|
    ensures var c := Read(Fresh(p.kind, junk, aux), source);
            c.result.Ok? && Steady(c.source.script) && |c.source.script| >= |source.script| - |Wire(p)|
  {
    hide Read, Receive, WellFormed, Wire, Steady, Deliver, Feed;
    FirstIsRead(p, junk, aux, rest, source);
    FreshStarts(p, junk, aux, rest, source);
    var r := After(p, junk, aux, 0);
    NotFinishedEarly(p, junk, aux, 0);
    AfterKeepsKind(p, junk, aux);
    SteadyIsMoving(source.script);
    ReadStaysInMessage(p, junk, aux, 0, rest, r, source);
    SteadyRead(r, source);
  }

  lemma {:induction false} AfterKeepsKind(p: Packet, junk: Byte, aux: seq<Byte>)
    requires WellFormed(p) && |aux| == AUX_DATA_SIZE
    ensures After(p, junk, aux, 0).kind == p.kind
  {
    hide Wire;
    assert Wire(p)[..0] == [];
  }

  // ---------------------------------------------------------------------------------------------
  // The loader itself
  // ---------------------------------------------------------------------------------------------

  class BinlogLoader {
    const junk: Byte
    var currentSize: nat
    var maxSize: nat
    var active: bool

    /** The state after the header of the file has been read. */
    constructor (junk: Byte, headerSize: nat, fileSize: nat)
      ensures this.junk == junk && currentSize == headerSize && maxSize == fileSize && active
    {
      this.junk, currentSize, maxSize, active := junk, headerSize, fileSize, true;
    }

    /** A new reader, and one call of its `read`. */
    method ReadCommand(device: InputDevice) returns (result: IoResult, size: nat, reader: Reader)
      modifies device
      ensures Call(reader, device.State(), size, result)
              == Reading.Read(Fresh(Command, junk, Repeat(junk, AUX_DATA_SIZE)), old(device.State()))
    {
      hide Reading.Read, Repeat;
      var rw := new MessageReader(Command, junk);
      result, size := rw.Read(device);
      reader := rw.State();
    }

    /** One reader after another; those that complete are handed on. */
    method LoadBinlog(device: InputDevice, quit: Requests) returns (posted: seq<Reader>)
      modifies this`currentSize, this`active, device
      ensures active == (old(active) && !Load(junk, Repeat(junk, AUX_DATA_SIZE), old(device.State()),
                                              old(currentSize), maxSize, quit, 0).stopped)
      ensures var l := Load(junk, Repeat(junk, AUX_DATA_SIZE), old(device.State()), old(currentSize), maxSize, quit, 0);
              posted == l.readers && currentSize == l.current && device.State() == l.source
    {
      hide Reading.Read, Repeat, Fresh, Valid, Load;
      ghost var aux := Repeat(junk, AUX_DATA_SIZE);
      ghost var whole := Load(junk, aux, device.State(), currentSize, maxSize, quit, 0);
      posted := [];
      while currentSize < maxSize
        invariant active == old(active)
        invariant var rest := Load(junk, aux, device.State(), currentSize, maxSize, quit, |posted|);
                  whole == rest.(readers := posted + rest.readers)
        decreases maxSize - currentSize
      {
        LoadTurn(junk, aux, device.State(), currentSize, maxSize, quit, |posted|);
        var result, size, reader := ReadCommand(device);
        if !result.Ok? {
          assert posted + [] == posted;
          return;
        }
        ghost var rest := Load(junk, aux, device.State(), currentSize + size, maxSize, quit, |posted| + 1);
        assert posted + ([reader] + rest.readers) == posted + [reader] + rest.readers;
        currentSize := currentSize + size;
        posted := posted + [reader];
        if quit(|posted|) {
          active := false;
          return;
        }
      }
      LoadIsOver(junk, aux, device.State(), currentSize, maxSize, quit, |posted|);
      assert posted + [] == posted;
    }
  }
}
