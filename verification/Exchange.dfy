/** A message from the builders of one side to the iterators of the other, over the buffers of both. */
module Exchange {
  import opened Bytes
  import opened Chunks
  import opened Headers
  import opened Devices
  import opened Packets
  import opened Protocol
  import B = Builders
  import I = Iterators
  import L = PayloadLists
  import Readers
  import Writers

  /** Calls of `write` until the message is sent, something fails, or the schedule is used up. */
  method SendAll(writer: Writers.MessageWriter, device: OutputDevice) returns (result: IoResult, total: nat)
    requires writer.Valid()
    modifies writer`phase, writer`pos, writer`remains, device
    ensures writer.Valid()
    ensures W.Call(writer.State(), device.State(), total, result) == W.Send(old(writer.State()), old(device.State()))
  {
    hide W.Write, W.Valid;
    ghost var whole := W.Send(writer.State(), device.State());
    result, total := Retry, 0;
    var again := true;
    while again
      invariant writer.Valid()
      invariant again ==> whole == SentLater(W.Send(writer.State(), device.State()), total)
      invariant !again ==> whole == W.Call(writer.State(), device.State(), total, result)
      decreases if again then |device.script| + 1 else 0
    {
      var left := |device.script|;
      var n: nat;
      result, n := writer.Write(device);
      total := total + n;
      again := result.Retry? && |device.script| < left;
    }
  }

  function SentLater(c: W.Call, n: nat): W.Call {
    c.(total := n + c.total)
  }

  /** Calls of `read` until the message is complete, something fails, or the schedule is used up. */
  method ReceiveAll(reader: Readers.MessageReader, device: InputDevice) returns (result: IoResult, total: nat)
    requires reader.Valid()
    modifies reader, reader.header, reader.payload, device
    ensures reader.Valid() && (reader.header == old(reader.header) || fresh(reader.header))
    ensures reader.payload == old(reader.payload) || fresh(reader.payload)
    ensures R.Call(reader.State(), device.State(), total, result) == S.Deliver(old(reader.State()), old(device.State()))
  {
    hide R.Read, R.Valid;
    ghost var whole := S.Deliver(reader.State(), device.State());
    result, total := Retry, 0;
    var again := true;
    while again
      invariant reader.Valid() && (reader.header == old(reader.header) || fresh(reader.header))
      invariant reader.payload == old(reader.payload) || fresh(reader.payload)
      invariant again ==> whole == ReadLater(S.Deliver(reader.State(), device.State()), total)
      invariant !again ==> whole == R.Call(reader.State(), device.State(), total, result)
      decreases if again then |device.script| + 1 else 0
    {
      var left := |device.script|;
      var n: nat;
      result, n := reader.Read(device);
      total := total + n;
      again := result.Retry? && |device.script| < left;
    }
  }

  function ReadLater(c: R.Call, n: nat): R.Call {
    c.(total := n + c.total)
  }

  /** What the builders make of a content: the header with its spare bytes, and the stored payload. */
  method Prepare(codec: Codec, o: Options, c: Content) returns (writer: Writers.MessageWriter, ghost spare: seq<Byte>)
    requires Sendable(codec, o, c)
    ensures fresh(writer) && writer.Valid() && writer.State() == Loaded(codec, o, c, spare)
  {
    hide HeaderBytes, ValidHeader, EncodeChunks, W.Valid, Lawful, ValidChunks;
    var meta, data := MetaOf(codec, o, c.payload), DataOf(codec, o, c.payload);
    var builder := B.BuildHeader(c.lead, c.chunks, meta);
    var payload := new Byte[|data|](i requires 0 <= i < |data| => data[i]);
    assert payload[..] == data;
    spare := builder.header[builder.used..];
    LoadedSends(codec, o, c, spare);
    var h := builder.header;
    assert h[..] == h[..builder.used] + spare;
    LoadedIsValid(Loaded(codec, o, c, spare));
    writer := new Writers.MessageWriter(c.lead.kind, h, payload);
  }

  lemma {:induction false} LoadedIsValid(w: W.Writer)
    requires W.Valid(w)
    ensures HasSizeField(w.header) && 0 < HeaderSize(w.kind, w.header) <= |w.header|
  {
  }

  /** What the accessors and iterators find in the buffers of a reader that has completed. */
  method Recover(codec: Codec, reader: Readers.MessageReader) returns (c: Content)
    requires HasSizeField(reader.header[..]) && (reader.kind.Command? ==> HasLead(reader.header[..]))
    requires Decode(codec, reader.kind, reader.header[..], reader.payload[..]).Some?
    ensures Decode(codec, reader.kind, reader.header[..], reader.payload[..]) == Some(c)
  {
    hide HeaderInfo, GetPayloadInfo, DecodeChunks, CommandId;
    var kind, h := reader.kind, reader.header[..];
    var chunks := [];
    match HeaderInfo(kind, h) {
      case NoRegion =>
      case Region(offset, size) =>
        var chunkIterator := new I.ChunkIterator(reader.header, offset, size);
        assert chunkIterator.Ahead() == h[offset..offset + size];
        chunks := chunkIterator.GetChunks();
    }
    var data := LoadPayload(codec, kind, h, reader.payload[..]);
    var low := LowBits(h[0]);
    var id := if kind.Command? then CommandId(h) else 0;
    var hash := if kind.Command? && low != 0 then GetPassword(h).hash else 0;
    c := Content(Lead(kind, low, HasMarker(h[0]), id, hash), chunks, data.value);
  }

  /**
   A content is built, written, read and taken apart again, all in place, under any harmless schedules with a
   moving call for every byte: what comes out is what went in, and the bytes that follow are left alone.
   */
  method Transfer(codec: Codec, o: Options, c: Content, writing: Script, rest: seq<Byte>, reading: Script, junk: Byte)
    returns (got: Content, left: seq<Byte>)
    requires Sendable(codec, o, c)
    requires Harmless(writing) && Harmless(reading)
    requires Moving(writing) >= |Wire(Encode(codec, o, c))| && Moving(reading) >= |Wire(Encode(codec, o, c))|
    ensures got == c && left == rest
  {
    hide Sendable, Encode, Wire, Moving, Harmless, W.Send, S.Deliver, Decode, HasLead, HasSizeField;
    var writer, spare := Prepare(codec, o, c);
    var output := new OutputDevice(writing);
    ghost var sent, total := SendAll(writer, output);
    var reader := new Readers.MessageReader(c.lead.kind, junk);
    ghost var aux := reader.header[..];
    var input := new InputDevice(output.output + rest, reading);
    ghost var result, count := ReceiveAll(reader, input);
    RoundTrip(codec, o, c, spare, writing, junk, aux, rest, reading);
    got := Recover(codec, reader);
    left := input.input;
  }

  // ---------------------------------------------------------------------------------------------
  // A list response: its strings in the payload, their number in the header
  // ---------------------------------------------------------------------------------------------

  function ListContent(lead: Lead, ss: seq<seq<Byte>>): Content {
    Content(lead, [Number(|ss|)], Some(EncodeElements(ss)))
  }

  /** The list that a handler collects, in a buffer that grows. */
  method CollectStrings(ss: seq<seq<Byte>>) returns (list: L.PayloadListBuilder)
    requires |ss| <= UINT_MAX && |EncodeElements(ss)| <= UINT_MAX
    ensures fresh(list) && list.Valid() && list.items == ss
  {
    hide EncodeElements, MeasureElement;
    list := new L.PayloadListBuilder(0, 0, 0);
    for k := 0 to |ss|
      invariant fresh(list) && fresh(list.buffer) && list.Valid() && list.items == ss[..k]
    {
      B.ElementsSplit(ss, k);
      assert list.used == |EncodeElements(ss[..k])|;
      var ok := list.Add(ss[k]);
      assert ss[..k] + [ss[k]] == ss[..k + 1];
    }
    assert ss[..|ss|] == ss;
  }

  /** The strings that a client takes from the payload, as many as the header says. */
  method TakeStrings(data: seq<Byte>, count: nat) returns (ss: seq<seq<Byte>>)
    requires DecodeElements(data, count).Elements?
    ensures DecodeElements(data, count).items == ss
  {
    hide DecodeElements;
    var bytes := new Byte[|data|](i requires 0 <= i < |data| => data[i]);
    assert bytes[..] == data;
    var strings := new I.ChunkIterator(bytes, 0, |data|);
    assert strings.Ahead() == data;
    ss := strings.GetElements(count);
  }

  /** Strings collected, sent and taken apart again are those strings, in order, under any two schedules. */
  method TransferList(codec: Codec, o: Options, lead: Lead, ss: seq<seq<Byte>>, writing: Script, rest: seq<Byte>,
                      reading: Script, junk: Byte)
    returns (got: seq<seq<Byte>>, left: seq<Byte>)
    requires Sendable(codec, o, ListContent(lead, ss))
    requires Harmless(writing) && Harmless(reading)
    requires Moving(writing) >= |Wire(Encode(codec, o, ListContent(lead, ss)))|
    requires Moving(reading) >= |Wire(Encode(codec, o, ListContent(lead, ss)))|
    ensures got == ss && left == rest
  {
    hide EncodeElements, DecodeElements, Encode, Wire, Moving, Harmless, EncodeChunks, ValidHeader, Lawful;
    ListFits(codec, o, lead, ss);
    hide Sendable;
    var list := CollectStrings(ss);
    var data := list.buffer[..list.used];
    var c := Content(lead, [Number(list.count)], Some(data));
    assert c == ListContent(lead, ss);
    var content, tail := Transfer(codec, o, c, writing, rest, reading, junk);
    ElementsReadBack(ss, []);
    assert EncodeElements(ss) + [] == EncodeElements(ss);
    got := TakeStrings(content.payload.value, content.chunks[0].n);
    left := tail;
  }

  lemma {:induction false} ListFits(codec: Codec, o: Options, lead: Lead, ss: seq<seq<Byte>>)
    requires Sendable(codec, o, ListContent(lead, ss))
    ensures |ss| <= UINT_MAX && |EncodeElements(ss)| <= UINT_MAX
    ensures forall i :: 0 <= i < |ss| ==> |ss[i]| <= UINT_MAX
  {
    hide EncodeElements, EncodeChunks, ValidHeader, Lawful, MeasureElement;
    assert ValidChunk([Number(|ss|)][0]);
    forall i | 0 <= i < |ss|
      ensures |ss[i]| <= UINT_MAX
    {
      B.ElementsSplit(ss, i);
      ElementIsShorter(ss[i]);
    }
  }

  lemma {:induction false} ElementIsShorter(s: seq<Byte>)
    ensures |s| <= MeasureElement(|s|)
  {
  }
}
