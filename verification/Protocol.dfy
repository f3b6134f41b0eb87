/**
 The protocol end to end: what a message means, how the builders put it on the wire, and that any
 schedule of writes followed by any schedule of reads brings the same meaning back.
 */
module Protocol {
  import opened Bytes
  import opened Chunks
  import opened Headers
  import opened Devices
  import opened Packets
  import R = Reading
  import S = Schedules
  import W = Writing

  /** The compression engines, of which only this much is used: see `Lawful`. */
  datatype Codec = Codec(pack: (Byte, seq<Byte>) -> Option<seq<Byte>>,
                         unpack: (Byte, seq<Byte>, nat) -> Option<seq<Byte>>)

  /** A packed buffer is shorter, not empty, and unpacks to what was packed. */
  ghost predicate Lawful(codec: Codec) {
    forall k: Byte, x: seq<Byte> {:trigger codec.pack(k, x)} ::
      codec.pack(k, x).Some? ==>
        && 0 < |codec.pack(k, x).value| < |x|
        && codec.unpack(k, codec.pack(k, x).value, |x|) == Some(x)
  }

  /** Network options that the builders consult. */
  datatype Options = Options(threshold: nat, compressor: Byte)

  /** What a message says: its lead, its chunks, and a payload before compression. */
  datatype Content = Content(lead: Lead, chunks: seq<Chunk>, payload: Option<seq<Byte>>)

  datatype Stored = Stored(meta: Meta, data: seq<Byte>)

  /** `PayloadChunkBuilder::add`: compressed if long enough and if that makes it shorter. */
  function Store(codec: Codec, o: Options, data: seq<Byte>): Stored {
    var packed :=
      if data != [] && |data| >= o.threshold && o.compressor != 0 then codec.pack(o.compressor, data) else None;
    if packed.Some? then Stored(Meta(o.compressor, |packed.value|, |data|), packed.value)
    else Stored(Meta(0, |data|, |data|), data)
  }

  function MetaOf(codec: Codec, o: Options, payload: Option<seq<Byte>>): Option<Meta> {
    if payload.None? then None else Some(Store(codec, o, payload.value).meta)
  }

  function DataOf(codec: Codec, o: Options, payload: Option<seq<Byte>>): seq<Byte> {
    if payload.None? then [] else Store(codec, o, payload.value).data
  }

  ghost predicate Sendable(codec: Codec, o: Options, c: Content) {
    && Lawful(codec) && o.compressor < CT_NUMBER_OF_ELEMENTS
    && ValidChunks(c.chunks)
    && (c.payload.Some? ==> |c.payload.value| <= UINT_MAX)
    && ValidHeader(c.lead, MetaOf(codec, o, c.payload), EncodeChunks(c.chunks))
    && (c.lead.kind.Response? && c.chunks == [] && c.payload.None? ==> c.lead.low == 0)
  }

  /** What the builders leave in the writer's buffers. */
  ghost function Encode(codec: Codec, o: Options, c: Content): (p: Packet)
    requires Sendable(codec, o, c)
    ensures p.header != []
  {
    Packet(c.lead.kind, HeaderBytes(c.lead, MetaOf(codec, o, c.payload), EncodeChunks(c.chunks)),
           DataOf(codec, o, c.payload))
  }

  /** `PayloadChunkIterator`: the payload, decompressed if necessary; Some(None) if there is none. */
  function LoadPayload(codec: Codec, kind: Kind, h: seq<Byte>, payload: seq<Byte>): Option<Option<seq<Byte>>>
    requires h != []
  {
    match GetPayloadInfo(kind, h, payload)
    case NoPayload => Some(None)
    case BadPayload => None
    case PayloadInfo(m, stored) =>
      if stored.None? then (if m.size == 0 then Some(Some([])) else None)
      else if m.compressor == 0 then Some(stored)
      else
        match codec.unpack(m.compressor, stored.value, m.usize)
        case None => None
        case Some(data) => Some(Some(data))
  }

  /** `HeaderChunkIterator` over the region that `get_header_info` delimits. */
  function LoadChunks(kind: Kind, h: seq<Byte>): Option<seq<Chunk>>
    requires HasSizeField(h)
  {
    match HeaderInfo(kind, h)
    case NoRegion => Some([])
    case Region(offset, size) =>
      if offset + size <= |h| then DecodeChunks(h[offset..offset + size]) else None
  }

  /** Everything that the accessors and iterators recover from the buffers of a reader. */
  function Decode(codec: Codec, kind: Kind, h: seq<Byte>, payload: seq<Byte>): Option<Content>
    requires HasSizeField(h) && (kind.Command? ==> HasLead(h))
  {
    var chunks := LoadChunks(kind, h);
    var data := LoadPayload(codec, kind, h, payload);
    if chunks.None? || data.None? then None
    else
      var low := LowBits(h[0]);
      var id := if kind.Command? then CommandId(h) else 0;
      var hash := if kind.Command? && low != 0 then GetPassword(h).hash else 0;
      Some(Content(Lead(kind, low, HasMarker(h[0]), id, hash), chunks.value, data.value))
  }

  // ---------------------------------------------------------------------------------------------
  // Building
  // ---------------------------------------------------------------------------------------------

  lemma {:induction false} StoreLoads(codec: Codec, o: Options, data: seq<Byte>)
    requires Lawful(codec) && o.compressor < CT_NUMBER_OF_ELEMENTS && |data| <= UINT_MAX
    ensures var s := Store(codec, o, data);
            && ValidMeta(s.meta) && |s.data| == s.meta.size && s.meta.usize == |data|
            && (s.meta.compressor == 0 ==> s.data == data)
            && (s.meta.compressor != 0 ==>
                  s.data != [] && codec.unpack(s.meta.compressor, s.data, |data|) == Some(data))
  {
  }

  /** Chunks, if any, take at least one byte. */
  lemma {:induction false} NoBytesNoChunks(cs: seq<Chunk>)
    requires ValidChunks(cs)
    ensures EncodeChunks(cs) == [] <==> cs == []
  {
    if cs != [] {
      ChunkIsNotEmpty(cs[0]);
    }
  }

  lemma {:induction false} LoneDescriptorOnly(l: Lead, p: Option<Meta>, chunks: seq<Byte>)
    requires ValidHeader(l, p, chunks)
    ensures var h := HeaderBytes(l, p, chunks);
            && 1 + SizeLength(h[0]) <= |h|
            && (SizeLength(h[0]) == 0 <==> chunks == [] && p.None?)
            && (1 + SizeLength(h[0]) == |h| <==> chunks == [] && p.None? && l.kind.Response?)
  {
    hide HeaderDescriptor, SizeLength, InfoLength, LeadLength, FromLe, Le;
    var x := HeaderParts(l, p, chunks);
    HeaderIsConsistent(l, p, chunks);
    SlicesOfJoin(x, []);
    assert Join(x) + [] == Join(x);
    assert |x.size| == ClassWidth(BodyClass(l, p, chunks));
  }

  /** Whatever the builders build is a well-formed message. */
  lemma {:induction false} EncodeIsWellFormed(codec: Codec, o: Options, c: Content)
    requires Sendable(codec, o, c)
    ensures WellFormed(Encode(codec, o, c))
  {
    hide HeaderBytes, ValidHeader, GetPayloadInfo, EncodeChunks;
    var m, chunks := MetaOf(codec, o, c.payload), EncodeChunks(c.chunks);
    var h := HeaderBytes(c.lead, m, chunks);
    assert h + [] == h;
    LayoutAgrees(c.lead, m, chunks, []);
    PayloadInfoAgrees(c.lead, m, chunks, [], []);
    LoneDescriptorOnly(c.lead, m, chunks);
    NoBytesNoChunks(c.chunks);
    if c.payload.Some? {
      StoreLoads(codec, o, c.payload.value);
    }
  }

  /** When `PayloadChunkBuilder::add` compresses. */
  ghost predicate Compresses(codec: Codec, o: Options, payload: Option<seq<Byte>>) {
    && payload.Some? && 0 < |payload.value| && o.threshold <= |payload.value|
    && o.compressor != 0 && codec.pack(o.compressor, payload.value).Some?
  }

  /**
   On the wire, a payload that reaches the threshold is the packed one, with the compressor and both sizes
   in the header, if there is a compressor and it makes the payload shorter; any other payload is sent as
   it is. The descriptor tells the two apart.
   */
  lemma {:induction false} CompressedOnWire(codec: Codec, o: Options, c: Content)
    requires Sendable(codec, o, c)
    ensures var p := Encode(codec, o, c);
            && (IsCompressed(p.header[0]) <==> Compresses(codec, o, c.payload))
            && match c.payload
               case None => p.payload == [] && GetPayloadInfo(p.kind, p.header, []).NoPayload?
               case Some(data) =>
                 && p.payload ==
                    (if Compresses(codec, o, c.payload) then codec.pack(o.compressor, data).value else data)
                 && GetPayloadInfo(p.kind, p.header, []) ==
                    PayloadInfo(Meta(if Compresses(codec, o, c.payload) then o.compressor else 0,
                                     |p.payload|, |data|), None)
  {
    hide HeaderBytes, ValidHeader, EncodeChunks, GetPayloadInfo, IsCompressed;
    var m, chunks := MetaOf(codec, o, c.payload), EncodeChunks(c.chunks);
    var h := HeaderBytes(c.lead, m, chunks);
    assert h + [] == h;
    FieldsOnWire(c.lead, m, chunks, Encode(codec, o, c).header[0]);
    PayloadInfoAgrees(c.lead, m, chunks, [], []);
  }

  // ---------------------------------------------------------------------------------------------
  // Decoding what was built
  // ---------------------------------------------------------------------------------------------

  lemma {:induction false} PayloadLoads(codec: Codec, o: Options, c: Content, spare: seq<Byte>)
    requires Sendable(codec, o, c)
    ensures var p := Encode(codec, o, c);
            p.header != [] && LoadPayload(codec, p.kind, p.header + spare, p.payload) == Some(c.payload)
  {
    hide HeaderBytes, ValidHeader, GetPayloadInfo, EncodeChunks;
    var m, chunks := MetaOf(codec, o, c.payload), EncodeChunks(c.chunks);
    LoneDescriptorOnly(c.lead, m, chunks);
    if c.payload.Some? {
      StoreLoads(codec, o, c.payload.value);
    }
    PayloadInfoAgrees(c.lead, m, chunks, spare, DataOf(codec, o, c.payload));
  }

  lemma {:induction false} ChunksLoad(l: Lead, p: Option<Meta>, cs: seq<Chunk>, spare: seq<Byte>)
    requires ValidChunks(cs) && ValidHeader(l, p, EncodeChunks(cs))
    ensures var h := HeaderBytes(l, p, EncodeChunks(cs)) + spare;
            HasSizeField(h) && LoadChunks(l.kind, h) == Some(cs)
  {
    hide HeaderBytes, ValidHeader, EncodeChunks, DecodeChunks, HeaderInfo;
    LayoutAgrees(l, p, EncodeChunks(cs), spare);
    ChunksReadBack(cs);
    NoBytesNoChunks(cs);
  }

  /** The accessors and iterators recover every part of a built message, whatever follows the header in the buffer. */
  lemma {:induction false} DecodeInvertsEncode(codec: Codec, o: Options, c: Content, spare: seq<Byte>)
    requires Sendable(codec, o, c)
    ensures var p := Encode(codec, o, c);
            && HasSizeField(p.header + spare) && (p.kind.Command? ==> HasLead(p.header + spare))
            && Decode(codec, p.kind, p.header + spare, p.payload) == Some(c)
  {
    hide HeaderBytes, ValidHeader, EncodeChunks, LoadPayload, LoadChunks, GetPassword, HasLead, CommandId;
    var m, chunks := MetaOf(codec, o, c.payload), EncodeChunks(c.chunks);
    LayoutAgrees(c.lead, m, chunks, spare);
    PayloadLoads(codec, o, c, spare);
    ChunksLoad(c.lead, m, c.chunks, spare);
    LeadIsValid(c.lead, m, chunks);
    if c.lead.kind.Command? {
      CommandIdAgrees(c.lead, m, chunks, spare);
      PasswordReadsBack(c.lead, m, chunks, spare);
    }
  }

  lemma {:induction false} LeadIsValid(l: Lead, p: Option<Meta>, chunks: seq<Byte>)
    requires ValidHeader(l, p, chunks)
    ensures ValidLead(l)
  {
  }

  // ---------------------------------------------------------------------------------------------
  // End to end
  // ---------------------------------------------------------------------------------------------

  /** A writer whose buffers the builders have filled; a short header leaves spare bytes in its buffer. */
  ghost function Loaded(codec: Codec, o: Options, c: Content, spare: seq<Byte>): W.Writer
    requires Sendable(codec, o, c)
  {
    var p := Encode(codec, o, c);
    W.Writer(p.kind, p.header + spare, p.payload, W.WriteReady, 0, 0)
  }

  lemma {:induction false} LoadedSends(codec: Codec, o: Options, c: Content, spare: seq<Byte>)
    requires Sendable(codec, o, c)
    ensures var w := Loaded(codec, o, c, spare);
            && W.Valid(w) && W.Sent(w) == 0 && W.Message(w) == Wire(Encode(codec, o, c))
  {
    hide HeaderBytes, ValidHeader, EncodeChunks;
    var m, chunks := MetaOf(codec, o, c.payload), EncodeChunks(c.chunks);
    LayoutAgrees(c.lead, m, chunks, spare);
    LoneDescriptorOnly(c.lead, m, chunks);
    var h := HeaderBytes(c.lead, m, chunks);
    assert (h + spare)[..|h|] == h && (h + spare)[0] == h[0];
  }

  /** Any run of the writer, with failures and rewinds, has a prefix of the wire form on the wire, or all of it. */
  lemma {:induction false} WriterKeepsOrder(codec: Codec, o: Options, c: Content, spare: seq<Byte>,
                                            sink: Sink, events: seq<W.Event>)
    requires Sendable(codec, o, c)
    ensures W.Valid(Loaded(codec, o, c, spare))
    ensures var t := W.Run(W.Start(Loaded(codec, o, c, spare), sink), events);
            && t.since <= Wire(Encode(codec, o, c)) && t.counted == |t.since|
            && (t.writer.phase.WriteDone? ==> t.since == Wire(Encode(codec, o, c)))
  {
    hide Encode, Sendable, Wire;
    LoadedSends(codec, o, c, spare);
    W.RunSendsPrefix(Loaded(codec, o, c, spare), sink, events);
  }

  /** A harmless schedule that moves as many times as there are bytes puts exactly the wire form on the wire. */
  lemma {:induction false} MessageIsSent(codec: Codec, o: Options, c: Content, spare: seq<Byte>, writing: Script)
    requires Sendable(codec, o, c)
    requires Harmless(writing) && Moving(writing) >= |Wire(Encode(codec, o, c))|
    ensures var w := Loaded(codec, o, c, spare);
            && W.Valid(w)
            && W.Send(w, Sink([], writing)).result.Ok?
            && W.Send(w, Sink([], writing)).sink.output == Wire(Encode(codec, o, c))
  {
    hide Encode, Sendable, Wire, W.Send, W.Message;
    LoadedSends(codec, o, c, spare);
    var w := Loaded(codec, o, c, spare);
    var sink := Sink([], writing);
    W.SendExtends(w, sink);
    W.SendOfReady(w, sink);
    var call := W.Send(w, sink);
    if call.result.Retry? {
      W.OfferedIsNext(call.writer);
    }
    assert W.Message(w)[0..|W.Message(w)|] == W.Message(w);
  }

  /**
   Round trip: for every message that can be built, any schedule of partial writes and retries, followed
   by any independent schedule of partial reads and retries, ends with a completed reader from whose
   buffers the accessors and iterators recover the same descriptor, ID, password, chunks and payload,
   and which has not touched what comes after the message.
   */
  lemma {:induction false} RoundTrip(codec: Codec, o: Options, c: Content, spare: seq<Byte>, writing: Script,
                                     junk: Byte, aux: seq<Byte>, rest: seq<Byte>, reading: Script)
    requires Sendable(codec, o, c) && |aux| == R.AUX_DATA_SIZE
    requires Harmless(writing) && Moving(writing) >= |Wire(Encode(codec, o, c))|
    requires Harmless(reading) && Moving(reading) >= |Wire(Encode(codec, o, c))|
    ensures W.Valid(Loaded(codec, o, c, spare))
    ensures var sent := W.Send(Loaded(codec, o, c, spare), Sink([], writing)).sink.output;
            var got := S.Deliver(R.Fresh(c.lead.kind, junk, aux), Source(sent + rest, reading));
            var h, payload := got.reader.header, got.reader.payload;
            && got.result.Ok? && got.reader.phase.ReadDone?
            && got.total == |sent| && got.source.input == rest
            && HasSizeField(h) && (c.lead.kind.Command? ==> HasLead(h))
            && Decode(codec, c.lead.kind, h, payload) == Some(c)
  {
    hide Wire, W.Send, S.Deliver, Decode, WellFormed, Sendable;
    var p := Encode(codec, o, c);
    MessageIsSent(codec, o, c, spare, writing);
    EncodeIsWellFormed(codec, o, c);
    var source := Source(Wire(p) + rest, reading);
    S.FreshStarts(p, junk, aux, rest, source);
    S.MessageIsDelivered(p, junk, aux, 0, rest, S.After(p, junk, aux, 0), source);
    assert Wire(p)[|Wire(p)|..] + rest == rest;
    var tail := if |p.header| > R.AUX_DATA_SIZE then [] else aux[|p.header|..];
    assert Buffer(p.header, aux) == p.header + tail;
    DecodeInvertsEncode(codec, o, c, tail);
  }
}
