/**
 Sockets and files as the readers and writers see them: every call moves at least one byte, or asks to
 retry, or reports the end of the stream, or fails. A script fixes the outcomes of the calls to come;
 a call past the end of the script is told to retry.
 */
module Devices {
  import opened Bytes

  datatype IoResult = Ok | Error | Retry | Eof

  /** Outcome of one device call; `Moves(n)` moves up to `n` bytes, and at least one if there is one to move. */
  datatype Outcome = Moves(n: nat) | Waits | Ends | Fails

  type Script = seq<Outcome>

  predicate Harmless(script: Script) {
    forall i :: 0 <= i < |script| ==> script[i].Moves? || script[i].Waits?
  }

  /** Number of calls of the script that move bytes. */
  function Moving(script: Script): nat {
    if script == [] then 0 else (if script[0].Moves? then 1 else 0) + Moving(script[1..])
  }

  /** Number of bytes that a `Moves(n)` call moves when `room` bytes are asked for or offered. */
  function Portion(n: nat, room: nat): (k: nat)
    ensures k <= room
    ensures room > 0 ==> k > 0
  {
    if n > room then room else if n == 0 && room > 0 then 1 else n
  }

  /** The readable side: bytes that will arrive and the outcomes of the calls that ask for them. */
  datatype Source = Source(input: seq<Byte>, script: Script)

  datatype Taken = Taken(result: IoResult, bytes: seq<Byte>, source: Source)

  /** `read_bytes`: takes at most `want` bytes. */
  function Take(s: Source, want: nat): (t: Taken)
    requires want > 0
    ensures t.bytes + t.source.input == s.input
    ensures t.result.Ok? <==> t.bytes != []
    ensures |t.bytes| <= want
    ensures t.source.script == if s.script == [] then [] else s.script[1..]
  {
    if s.script == [] then Taken(Retry, [], s)
    else
      var next := s.script[1..];
      match s.script[0]
      case Waits => Taken(Retry, [], s.(script := next))
      case Ends => Taken(Eof, [], s.(script := next))
      case Fails => Taken(Error, [], s.(script := next))
      case Moves(n) =>
        var k := Portion(n, Min(want, |s.input|));
        Taken(if k > 0 then Ok else Retry, s.input[..k], Source(s.input[k..], next))
  }

  lemma {:induction false} TakeStaysHarmless(s: Source, want: nat)
    requires want > 0 && Harmless(s.script)
    ensures Harmless(Take(s, want).source.script)
    ensures Take(s, want).result.Ok? || Take(s, want).result.Retry?
  {
  }

  /** The writable side: bytes delivered so far and the outcomes of the calls to come. */
  datatype Sink = Sink(output: seq<Byte>, script: Script)

  datatype Given = Given(result: IoResult, count: nat, sink: Sink)

  /** `write_bytes`: delivers a non-empty prefix of `offered`, or nothing. */
  function Give(s: Sink, offered: seq<Byte>): (g: Given)
    requires offered != []
    ensures g.count <= |offered|
    ensures g.sink.output == s.output + offered[..g.count]
    ensures g.result.Ok? <==> g.count > 0
    ensures g.sink.script == if s.script == [] then [] else s.script[1..]
  {
    if s.script == [] then Given(Retry, 0, s)
    else
      var next := s.script[1..];
      match s.script[0]
      case Waits => Given(Retry, 0, s.(script := next))
      case Ends => Given(Eof, 0, s.(script := next))
      case Fails => Given(Error, 0, s.(script := next))
      case Moves(n) =>
        var k := Portion(n, |offered|);
        Given(Ok, k, Sink(s.output + offered[..k], next))
  }

  /** A device that is read from. */
  class InputDevice {
    var input: seq<Byte>
    var script: Script

    constructor (input: seq<Byte>, script: Script)
      ensures State() == Source(input, script)
    {
      this.input, this.script := input, script;
    }

    function State(): Source
      reads this
    {
      Source(input, script)
    }

    /** Reads up to `want` bytes into `buffer` from `offset` on. */
    method ReadBytes(buffer: array<Byte>, offset: nat, want: nat) returns (result: IoResult, n: nat)
      requires 0 < want && offset + want <= buffer.Length
      modifies this, buffer
      ensures var t := Take(old(State()), want);
              && result == t.result && n == |t.bytes| && State() == t.source
              && buffer[..] == Overwrite(old(buffer[..]), offset, t.bytes)
    {
      hide Overwrite;
      var t := Take(State(), want);
      result, n := t.result, |t.bytes|;
      ghost var was := buffer[..];
      OverwriteNothing(was, offset);
      var k := 0;
      while k < n
        invariant k <= n && State() == old(State())
        invariant buffer[..] == Overwrite(was, offset, t.bytes[..k])
      {
        ghost var before := buffer[..];
        buffer[offset + k] := t.bytes[k];
        assert buffer[..] == before[offset + k := t.bytes[k]];
        OverwriteOneMore(was, offset, t.bytes, k);
        k := k + 1;
      }
      assert t.bytes[..n] == t.bytes;
      input, script := t.source.input, t.source.script;
    }
  }

  /** A device that is written to. */
  class OutputDevice {
    var output: seq<Byte>
    var script: Script

    constructor (script: Script)
      ensures State() == Sink([], script)
    {
      this.output, this.script := [], script;
    }

    function State(): Sink
      reads this
    {
      Sink(output, script)
    }

    /** Writes a prefix of the `count` bytes of `buffer` from `offset` on. */
    method WriteBytes(buffer: array<Byte>, offset: nat, count: nat) returns (result: IoResult, n: nat)
      requires 0 < count && offset + count <= buffer.Length
      modifies this
      ensures var g := Give(old(State()), buffer[offset..offset + count]);
              result == g.result && n == g.count && State() == g.sink
    {
      var g := Give(State(), buffer[offset..offset + count]);
      result, n := g.result, g.count;
      output, script := g.sink.output, g.sink.script;
    }
  }
}
